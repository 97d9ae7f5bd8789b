/** Notes attached to a tree's root (src/forest/notetaking.rs). */
module NoteTaking {
  import opened Types
  import opened Outcomes
  import opened NestedSet
  import opened Query
  import opened Db
  import opened DbUtils

  // ---------------------------------------------------------------------------
  // find_uid

  /** The rows of `SELECT id FROM note WHERE id LIKE prefix || '%'`: every
      note whose id starts like `prefix`, whatever its tree. */
  function NoteMatching(notes: map<string, Note>, prefix: string): set<string> {
    set n | n in notes && LikePrefix(prefix, n)
  }

  /** `find_uid`: the one note whose id starts like `prefix`; not found when
      there is none; ambiguous, listing every matching id, when there are
      several. */
  function FindUid(notes: map<string, Note>, prefix: string): (r: Result<string>)
    ensures r.Ok? <==> |NoteMatching(notes, prefix)| == 1
    ensures r.Ok? ==> NoteMatching(notes, prefix) == {r.value} && r.value in notes
    ensures r.Err? ==> (r.error == NoteNotFound(prefix) <==> NoteMatching(notes, prefix) == {})
    ensures r.Err? && NoteMatching(notes, prefix) != {} ==>
      && r.error.AmbiguousNote? && r.error.prefix == prefix
      && forall n :: n in r.error.ids <==> n in notes && LikePrefix(prefix, n)
  {
    var m := NoteMatching(notes, prefix);
    if m == {} then Err(NoteNotFound(prefix))
    else if |m| > 1 then Err(AmbiguousNote(prefix, m))
    else
      Singleton(m);
      var id :| m == {id};
      Ok(id)
  }

  /** An ambiguous answer lists at least two different notes. */
  lemma AmbiguousListsTwo(notes: map<string, Note>, prefix: string)
    requires FindUid(notes, prefix).Err? && FindUid(notes, prefix).error.AmbiguousNote?
    ensures exists a, b :: a in FindUid(notes, prefix).error.ids && b in FindUid(notes, prefix).error.ids && a != b
  {
    var m := NoteMatching(notes, prefix);
    var a :| a in m;
    assert |m - {a}| >= 1;
    var b :| b in m - {a};
    assert a in FindUid(notes, prefix).error.ids && b in FindUid(notes, prefix).error.ids;
  }

  /** A note's full id resolves to that note when every note id is a
      well-formed identifier. */
  lemma FullUidResolves(notes: map<string, Note>, id: string)
    requires forall n :: n in notes ==> IsUid(n)
    requires id in notes
    ensures FindUid(notes, id) == Ok(id)
  {
    var m := NoteMatching(notes, id);
    forall x | x in m
      ensures x == id
    {
      LikeFullUid(id, x);
    }
    LikeFullUid(id, id);
    assert m == {id};
  }

  /** The short form of a note already in the table never passes the
      collision check: it resolves to that note, or is ambiguous. */
  lemma TakenShortFound(notes: map<string, Note>, id: string)
    requires id in notes
    ensures FindUid(notes, Short(id)).Ok? || FindUid(notes, Short(id)).error.AmbiguousNote?
  {
    ShortMatches(id);
    assert id in NoteMatching(notes, Short(id));
  }

  // ---------------------------------------------------------------------------
  // add

  /** `note add`: a fresh id whose short form resolves is refused first;
      then the named or current tree is looked up, and the note is attached
      to that tree's root.  The note file and the editor are not part of
      this model; `date` is the clock reading the source takes. */
  method Add(db: Forest, treeName: Option<string>, fromTimeTracking: bool, newId: string, date: int)
    returns (tree: Option<string>, r: Result<string>)
    requires db.Valid()
    modifies db
    ensures db.Valid()
    ensures db.trees == old(db.trees) && db.tasks == old(db.tasks) && db.frames == old(db.frames)
    ensures db.hasState == old(db.hasState) && db.currentTree == old(db.currentTree)
    ensures FindUid(old(db.notes), Short(newId)).Ok? ==>
      r == Err(Panic(UidCollision)) && tree.None? && db.notes == old(db.notes)
    ensures FindUid(old(db.notes), Short(newId)).Err? && treeName.Some? ==> tree == treeName
    ensures FindUid(old(db.notes), Short(newId)).Err? && treeName.None? ==> (tree.None? <==> old(db.NoCurrent()))
    ensures FindUid(old(db.notes), Short(newId)).Err? && treeName.None? && tree.Some? ==> old(db.CurrentCandidate(tree.value))
    ensures FindUid(old(db.notes), Short(newId)).Err? && tree.None? ==> r == Err(EmptyForest) && db.notes == old(db.notes)
    ensures tree.Some? && !HasRoot(db.tasks, tree.value) ==>
      r == Err(TreeNotFound(tree.value)) && db.notes == old(db.notes)
    ensures tree.Some? && HasRoot(db.tasks, tree.value) && newId in old(db.notes) ==>
      r == Err(Panic(DuplicateId)) && db.notes == old(db.notes)
    ensures tree.Some? && HasRoot(db.tasks, tree.value) && newId !in old(db.notes) ==>
      && r == Ok(newId)
      && newId in db.notes && db.notes == old(db.notes)[newId := db.notes[newId]]
      && db.notes[newId] == Note(date, db.notes[newId].task, fromTimeTracking)
      && IsRoot(db.tasks, tree.value, db.notes[newId].task)
  {
    var found := FindUid(db.notes, Short(newId));
    if found.Ok? {
      tree, r := None, Err(Panic(UidCollision));
    } else {
      tree := ResolveTree(db, treeName);
      if tree.None? {
        r := Err(EmptyForest);
      } else {
        var root := SelectRoot(db.tasks, tree.value);
        if root.None? {
          r := Err(TreeNotFound(tree.value));
        } else if newId in db.notes {
          r := Err(Panic(DuplicateId));
        } else {
          db.notes := db.notes[newId := Note(date, root.value, fromTimeTracking)];
          r := Ok(newId);
        }
      }
    }
  }

  // ---------------------------------------------------------------------------
  // list

  /** Whether a listed note came from time tracking, printed only when those
      notes are shown. */
  datatype Kind = TimeTracking | User

  /** One printed note: its short id, its date, its kind when kinds are
      shown, and its tree. */
  datatype NoteLine = NoteLine(short: string, date: int, kind: Option<Kind>, tree: string)

  /** `ids` are all the notes, each once, latest first: `ORDER BY date DESC`
      over the notes joined to their tasks (every note has its task). */
  ghost predicate ByDate(notes: map<string, Note>, ids: seq<string>) {
    && (forall i :: 0 <= i < |ids| ==> ids[i] in notes)
    && (forall n :: n in notes ==> n in ids)
    && Distinct(ids)
    && (forall i, j :: 0 <= i < j < |ids| ==> notes[ids[i]].date >= notes[ids[j]].date)
  }

  /** The query of `note list`. */
  method SelectByDate(notes: map<string, Note>) returns (ids: seq<string>)
    ensures ByDate(notes, ids)
  {
    var le := (a: string, b: string) => a in notes && b in notes && notes[a].date >= notes[b].date;
    ids := OrderBy(notes.Keys, le);
  }

  /** The notes the loop prints: time-tracking notes are skipped unless
      they are shown. */
  function Shown(notes: map<string, Note>, ids: seq<string>, showTimeTracking: bool): (s: seq<string>)
    requires forall i :: 0 <= i < |ids| ==> ids[i] in notes
    ensures |s| <= |ids| && forall i :: 0 <= i < |s| ==> s[i] in ids
  {
    if ids == [] then []
    else
      var last := ids[|ids| - 1];
      Shown(notes, ids[..|ids| - 1], showTimeTracking) + (if !showTimeTracking && notes[last].timeTracking then [] else [last])
  }

  /** The printed line of note `n`. */
  function LineOf(notes: map<string, Note>, tasks: map<string, Task>, n: string, showTimeTracking: bool): (line: NoteLine)
    requires n in notes && notes[n].task in tasks
    ensures line.short == Short(n) && line.date == notes[n].date && line.tree == tasks[notes[n].task].tree
    ensures line.kind.Some? <==> showTimeTracking
    ensures line.kind == Some(TimeTracking) <==> showTimeTracking && notes[n].timeTracking
  {
    var kind := if !showTimeTracking then None else if notes[n].timeTracking then Some(TimeTracking) else Some(User);
    NoteLine(Short(n), notes[n].date, kind, tasks[notes[n].task].tree)
  }

  /** The printed lines of the notes `s`, in order. */
  function LinesOf(notes: map<string, Note>, tasks: map<string, Task>, s: seq<string>, showTimeTracking: bool): (out: seq<NoteLine>)
    requires forall i :: 0 <= i < |s| ==> s[i] in notes && notes[s[i]].task in tasks
    ensures |out| == |s| && forall i :: 0 <= i < |s| ==> out[i] == LineOf(notes, tasks, s[i], showTimeTracking)
  {
    seq(|s|, i requires 0 <= i < |s| => LineOf(notes, tasks, s[i], showTimeTracking))
  }

  /** `note list`: every note, latest first, skipping time-tracking notes
      unless asked for; no note at all is an error.  The file preview and
      the column padding are presentation and not part of this model. */
  method List(db: Forest, showTimeTracking: bool) returns (r: Result<seq<NoteLine>>)
    requires db.Valid()
    ensures r.Err? <==> db.notes == map[]
    ensures r.Err? ==> r.error == NoNotes
    ensures r.Ok? ==> exists ids :: ByDate(db.notes, ids) && r.value == LinesOf(db.notes, db.tasks, Shown(db.notes, ids, showTimeTracking), showTimeTracking)
  {
    var ids := SelectByDate(db.notes);
    if ids == [] {
      assert forall n :: n !in db.notes;
      assert db.notes.Keys == {};
      return Err(NoNotes);
    }
    var lines := PrintLines(db.notes, db.tasks, ids, showTimeTracking);
    r := Ok(lines);
  }

  /** The loop of `note list` over the fetched rows. */
  method PrintLines(notes: map<string, Note>, tasks: map<string, Task>, ids: seq<string>, showTimeTracking: bool)
    returns (lines: seq<NoteLine>)
    requires forall i :: 0 <= i < |ids| ==> ids[i] in notes && notes[ids[i]].task in tasks
    ensures lines == LinesOf(notes, tasks, Shown(notes, ids, showTimeTracking), showTimeTracking)
  {
    lines := [];
    var i := 0;
    while i < |ids|
      invariant 0 <= i <= |ids|
      invariant lines == LinesOf(notes, tasks, Shown(notes, ids[..i], showTimeTracking), showTimeTracking)
    {
      assert ids[..i + 1][..i] == ids[..i];
      var n := ids[i];
      i := i + 1;
      if !showTimeTracking && notes[n].timeTracking {
        continue;
      }
      lines := lines + [LineOf(notes, tasks, n, showTimeTracking)];
    }
    assert ids[..|ids|] == ids;
  }

  /** The shown notes are taken from `ids`. */
  lemma {:induction false} ShownIn(notes: map<string, Note>, ids: seq<string>, showTimeTracking: bool)
    requires forall i :: 0 <= i < |ids| ==> ids[i] in notes
    ensures forall n :: n in Shown(notes, ids, showTimeTracking) <==>
      n in ids && (showTimeTracking || !notes[n].timeTracking)
  {
    if ids != [] {
      var init := ids[..|ids| - 1];
      ShownIn(notes, init, showTimeTracking);
      assert ids == init + [ids[|ids| - 1]];
    }
  }

  /** The listing skips exactly the time-tracking notes when those are not
      shown, keeps every note once, and keeps the latest-first order. */
  lemma {:induction false} ShownByDate(notes: map<string, Note>, ids: seq<string>, showTimeTracking: bool)
    requires ByDate(notes, ids)
    ensures var s := Shown(notes, ids, showTimeTracking);
      && (forall n :: n in s <==> n in notes && (showTimeTracking || !notes[n].timeTracking))
      && Distinct(s)
      && (forall i, j :: 0 <= i < j < |s| ==> notes[s[i]].date >= notes[s[j]].date)
  {
    ShownIn(notes, ids, showTimeTracking);
    ShownSub(notes, ids, showTimeTracking);
  }

  /** Filtering keeps distinctness and the date order of `ids`. */
  lemma {:induction false} ShownSub(notes: map<string, Note>, ids: seq<string>, showTimeTracking: bool)
    requires forall i :: 0 <= i < |ids| ==> ids[i] in notes
    requires Distinct(ids)
    requires forall i, j :: 0 <= i < j < |ids| ==> notes[ids[i]].date >= notes[ids[j]].date
    ensures var s := Shown(notes, ids, showTimeTracking);
      && Distinct(s)
      && (forall i, j :: 0 <= i < j < |s| ==> notes[s[i]].date >= notes[s[j]].date)
  {
    if ids != [] {
      var init := ids[..|ids| - 1];
      var last := ids[|ids| - 1];
      assert forall k :: 0 <= k < |init| ==> init[k] == ids[k];
      ShownSub(notes, init, showTimeTracking);
      ShownIn(notes, init, showTimeTracking);
      var before := Shown(notes, init, showTimeTracking);
      var s := Shown(notes, ids, showTimeTracking);
      if !(!showTimeTracking && notes[last].timeTracking) {
        assert s == before + [last];
        forall i | 0 <= i < |before|
          ensures before[i] != last && notes[before[i]].date >= notes[last].date
        {
          assert before[i] in init;
          var k :| 0 <= k < |init| && init[k] == before[i];
          assert ids[k] == before[i];
        }
      }
    }
  }

  // ---------------------------------------------------------------------------
  // remove

  /** `note remove`: deletes the note the prefix resolves to.  The note file
      is not part of this model. */
  method Remove(db: Forest, prefix: string) returns (r: Result<string>)
    requires db.Valid()
    modifies db
    ensures db.Valid()
    ensures db.trees == old(db.trees) && db.tasks == old(db.tasks) && db.frames == old(db.frames)
    ensures db.hasState == old(db.hasState) && db.currentTree == old(db.currentTree)
    ensures FindUid(old(db.notes), prefix).Err? ==>
      r == Err(FindUid(old(db.notes), prefix).error) && db.notes == old(db.notes)
    ensures FindUid(old(db.notes), prefix).Ok? ==>
      var id := FindUid(old(db.notes), prefix).value;
      && r == Ok(id) && id in old(db.notes)
      && (forall n :: n in db.notes <==> n in old(db.notes) && n != id)
      && (forall n :: n in db.notes ==> db.notes[n] == old(db.notes)[n])
  {
    var found := FindUid(db.notes, prefix);
    if found.Err? {
      r := Err(found.error);
    } else {
      db.notes := db.notes - {found.value};
      r := Ok(found.value);
    }
  }
}
