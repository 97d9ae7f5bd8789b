/** Tree lifecycle and the overview of the forest (src/forest/tree.rs). */
module Trees {
  import opened Types
  import opened Outcomes
  import opened NestedSet
  import opened Query
  import opened Db
  import opened DbUtils

  // ---------------------------------------------------------------------------
  // switch

  /** `tree switch`: the state row's `current_tree` becomes `name`.  The
      foreign key refuses a name that is not a tree; without a state row the
      update touches no row and succeeds. */
  method Switch(db: Forest, name: string) returns (r: Result<string>)
    requires db.Valid()
    modifies db
    ensures db.Valid()
    ensures db.trees == old(db.trees) && db.tasks == old(db.tasks) && db.notes == old(db.notes)
    ensures db.frames == old(db.frames) && db.hasState == old(db.hasState)
    ensures !db.hasState ==> r == Ok(name) && db.currentTree == old(db.currentTree)
    ensures db.hasState && name !in db.trees ==> r == Err(TreeNotFound(name)) && db.currentTree == old(db.currentTree)
    ensures db.hasState && name in db.trees ==> r == Ok(name) && db.currentTree == Some(name)
  {
    if !db.hasState {
      r := Ok(name);
    } else if name !in db.trees {
      r := Err(TreeNotFound(name));
    } else {
      db.currentTree := Some(name);
      r := Ok(name);
    }
  }

  // ---------------------------------------------------------------------------
  // add

  /** The root every new tree gets: the interval [1, 2], no name, no
      description. */
  function NewRoot(tree: string): (t: Task)
    ensures t.tree == tree && t.left == 1 && t.right == 2 && t.name == "" && t.description == ""
  {
    Task(tree, 1, 2, "", "")
  }

  /** A root for a tree that holds no task yet keeps the table well nested
      and rooted. */
  lemma NewTreeShape(tasks: map<string, Task>, name: string, id: string)
    requires WellNested(tasks) && Rooted(tasks) && id !in tasks
    requires forall x :: x in tasks ==> tasks[x].tree != name
    ensures WellNested(tasks[id := NewRoot(name)]) && Rooted(tasks[id := NewRoot(name)])
  {
    var tasks' := tasks[id := NewRoot(name)];
    forall a, b | a in tasks' && b in tasks' && a != b && tasks'[a].tree == tasks'[b].tree
      ensures NestedOrApart(tasks'[a], tasks'[b])
      ensures tasks'[a].left == 1 ==> Encloses(tasks'[a], tasks'[b])
    {
      Pair(tasks, a, b);
    }
    forall x | x in tasks'
      ensures HasRoot(tasks', tasks'[x].tree)
    {
      if x == id {
        assert IsRoot(tasks', name, id);
      } else {
        assert HasRoot(tasks, tasks[x].tree);
        var root :| IsRoot(tasks, tasks[x].tree, root);
        assert IsRoot(tasks', tasks'[x].tree, root);
      }
    }
  }

  /** Inserting the tree row, and the root row when its id is free, keeps the
      store consistent; the new tree then holds its root and nothing else. */
  lemma AddLeaves(trees: map<string, string>, tasks: map<string, Task>, notes: map<string, Note>,
                  frames: map<string, Frame>, hasState: bool, cur: Option<string>,
                  name: string, description: string, id: string,
                  trees': map<string, string>, tasks': map<string, Task>)
    requires Consistent(trees, tasks, notes, frames, hasState, cur)
    requires name !in trees && IsUid(id)
    requires trees' == trees[name := description]
    requires tasks' == if id in tasks then tasks else tasks[id := NewRoot(name)]
    ensures Consistent(trees', tasks', notes, frames, hasState, cur)
    ensures id !in tasks ==> TreeRows(tasks', name) == {id} && IsRoot(tasks', name, id)
  {
    if id !in tasks {
      NewTreeShape(tasks, name, id);
      assert forall x :: x in TreeRows(tasks', name) ==> x == id;
    }
  }

  /** `tree add`: inserts the tree row (an existing name is refused), then the
      root row [1, 2] under a fresh id (a taken id panics, after the tree row
      is in), then switches to the new tree. */
  method Add(db: Forest, name: string, description: string, rootId: string) returns (r: Result<string>)
    requires db.Valid() && IsUid(rootId)
    modifies db
    ensures db.Valid()
    ensures db.notes == old(db.notes) && db.frames == old(db.frames) && db.hasState == old(db.hasState)
    ensures name in old(db.trees) ==>
      && r == Err(TreeExists(name))
      && db.trees == old(db.trees) && db.tasks == old(db.tasks) && db.currentTree == old(db.currentTree)
    ensures name !in old(db.trees) ==> db.trees == old(db.trees)[name := description]
    ensures name !in old(db.trees) && rootId in old(db.tasks) ==>
      r == Err(Panic(DuplicateId)) && db.tasks == old(db.tasks) && db.currentTree == old(db.currentTree)
    ensures name !in old(db.trees) && rootId !in old(db.tasks) ==>
      && r == Ok(rootId)
      && db.tasks == old(db.tasks)[rootId := NewRoot(name)]
      && db.currentTree == (if db.hasState then Some(name) else old(db.currentTree))
    ensures r.Ok? ==> TreeRows(db.tasks, name) == {rootId} && IsRoot(db.tasks, name, rootId)
  {
    if name in db.trees {
      r := Err(TreeExists(name));
    } else {
      var t0 := db.tasks;
      var trees' := db.trees[name := description];
      var tasks' := if rootId in t0 then t0 else t0[rootId := NewRoot(name)];
      AddLeaves(db.trees, t0, db.notes, db.frames, db.hasState, db.currentTree, name, description, rootId, trees', tasks');
      db.trees, db.tasks := trees', tasks';
      if rootId in t0 {
        r := Err(Panic(DuplicateId));
      } else {
        var switched := Switch(db, name);
        r := Ok(rootId);
      }
    }
  }

  // ---------------------------------------------------------------------------
  // remove

  /** A sub-table of a well-nested table is well nested. */
  lemma SubTable(tasks: map<string, Task>, tasks': map<string, Task>)
    requires WellNested(tasks)
    requires forall x :: x in tasks' ==> x in tasks && tasks'[x] == tasks[x]
    ensures WellNested(tasks')
  {
    forall a, b | a in tasks' && b in tasks' && a != b && tasks'[a].tree == tasks'[b].tree
      ensures NestedOrApart(tasks'[a], tasks'[b])
      ensures tasks'[a].left == 1 ==> Encloses(tasks'[a], tasks'[b])
    {
      Pair(tasks, a, b);
    }
  }

  /** Deleting a tree that is not the current one, with the cascade through
      its tasks to their notes and frames, keeps the store consistent and
      keeps exactly the notes and frames of the other trees. */
  lemma RemoveLeaves(trees: map<string, string>, tasks: map<string, Task>, notes: map<string, Note>,
                     frames: map<string, Frame>, hasState: bool, cur: Option<string>, name: string,
                     trees': map<string, string>, tasks': map<string, Task>,
                     notes': map<string, Note>, frames': map<string, Frame>)
    requires Consistent(trees, tasks, notes, frames, hasState, cur) && cur != Some(name)
    requires trees' == trees - {name} && tasks' == WithoutTree(tasks, name)
    requires notes' == NotesOf(notes, tasks') && frames' == FramesOf(frames, tasks')
    ensures Consistent(trees', tasks', notes', frames', hasState, cur)
    ensures forall n :: n in notes' <==> n in notes && tasks[notes[n].task].tree != name
    ensures forall f :: f in frames' <==> f in frames && tasks[frames[f].task].tree != name
  {
    SubTable(tasks, tasks');
    forall x | x in tasks'
      ensures HasRoot(tasks', tasks'[x].tree)
    {
      assert HasRoot(tasks, tasks[x].tree);
      var root :| IsRoot(tasks, tasks[x].tree, root);
      assert IsRoot(tasks', tasks'[x].tree, root);
    }
    assert forall x :: x in tasks' ==> IsUid(x);
  }

  /** `tree remove`: deletes the tree row; its tasks go by cascade and their
      notes and frames with them.  An unknown name deletes no row; the
      current tree stays referenced by the state row, whose foreign key has
      no delete action, so the store refuses that deletion. */
  method Remove(db: Forest, name: string) returns (r: Result<string>)
    requires db.Valid()
    modifies db
    ensures db.Valid()
    ensures db.hasState == old(db.hasState) && db.currentTree == old(db.currentTree)
    ensures name !in old(db.trees) ==>
      && r == Err(TreeNotFound(name))
      && db.trees == old(db.trees) && db.tasks == old(db.tasks) && db.notes == old(db.notes) && db.frames == old(db.frames)
    ensures name in old(db.trees) && old(db.currentTree) == Some(name) ==>
      && r == Err(Panic(ConstraintViolation))
      && db.trees == old(db.trees) && db.tasks == old(db.tasks) && db.notes == old(db.notes) && db.frames == old(db.frames)
    ensures name in old(db.trees) && old(db.currentTree) != Some(name) ==>
      && r == Ok(name)
      && db.trees == old(db.trees) - {name}
      && db.tasks == WithoutTree(old(db.tasks), name)
      && (forall n :: n in db.notes <==> n in old(db.notes) && old(db.tasks)[old(db.notes)[n].task].tree != name)
      && (forall n :: n in db.notes ==> db.notes[n] == old(db.notes)[n])
      && (forall f :: f in db.frames <==> f in old(db.frames) && old(db.tasks)[old(db.frames)[f].task].tree != name)
      && (forall f :: f in db.frames ==> db.frames[f] == old(db.frames)[f])
  {
    if name !in db.trees {
      r := Err(TreeNotFound(name));
    } else if db.currentTree == Some(name) {
      r := Err(Panic(ConstraintViolation));
    } else {
      var trees' := db.trees - {name};
      var tasks' := WithoutTree(db.tasks, name);
      var notes' := NotesOf(db.notes, tasks');
      var frames' := FramesOf(db.frames, tasks');
      RemoveLeaves(db.trees, db.tasks, db.notes, db.frames, db.hasState, db.currentTree, name,
                   trees', tasks', notes', frames');
      db.trees, db.tasks, db.notes, db.frames := trees', tasks', notes', frames';
      r := Ok(name);
    }
  }

  // ---------------------------------------------------------------------------
  // rename and edit

  /** The store refuses to rename `name` to `newName`: a different name that
      is already a tree (the primary key), or a tree that a task or the state
      row references (foreign keys without an update action). */
  predicate RenameRefused(trees: map<string, string>, tasks: map<string, Task>, cur: Option<string>,
                                name: string, newName: string)
  {
    newName != name && (newName in trees || name in TreesOf(tasks) || cur == Some(name))
  }

  /** The tree table after the row `name` takes the key `newName`. */
  function RenamedTree(trees: map<string, string>, name: string, newName: string): (r: map<string, string>)
    requires name in trees
    ensures newName in r && r[newName] == trees[name]
    ensures forall x :: x != newName ==> (x in r <==> x in trees && x != name)
    ensures forall x :: x in r && x != newName ==> r[x] == trees[x]
  {
    (trees - {name})[newName := trees[name]]
  }

  /** A tree that no task and no state row references can take a fresh
      name. */
  lemma RenameLeaves(trees: map<string, string>, tasks: map<string, Task>, notes: map<string, Note>,
                     frames: map<string, Frame>, hasState: bool, cur: Option<string>,
                     name: string, newName: string)
    requires Consistent(trees, tasks, notes, frames, hasState, cur) && name in trees
    requires !RenameRefused(trees, tasks, cur, name, newName)
    ensures Consistent(RenamedTree(trees, name, newName), tasks, notes, frames, hasState, cur)
  {
    if newName != name {
      forall x | x in tasks
        ensures tasks[x].tree != name
      {
        assert tasks[x].tree in TreesOf(tasks);
      }
    }
  }

  /** `tree rename`: the tree row `name` is renamed; an unknown name updates
      no row. */
  method Rename(db: Forest, name: string, newName: string) returns (r: Result<string>)
    requires db.Valid()
    modifies db
    ensures db.Valid()
    ensures db.tasks == old(db.tasks) && db.notes == old(db.notes) && db.frames == old(db.frames)
    ensures db.hasState == old(db.hasState) && db.currentTree == old(db.currentTree)
    ensures name !in old(db.trees) ==> r == Err(TreeNotFound(name)) && db.trees == old(db.trees)
    ensures name in old(db.trees) && RenameRefused(old(db.trees), db.tasks, db.currentTree, name, newName) ==>
      r == Err(Panic(ConstraintViolation)) && db.trees == old(db.trees)
    ensures name in old(db.trees) && !RenameRefused(old(db.trees), db.tasks, db.currentTree, name, newName) ==>
      r == Ok(newName) && db.trees == RenamedTree(old(db.trees), name, newName)
  {
    if name !in db.trees {
      r := Err(TreeNotFound(name));
    } else {
      if RenameRefused(db.trees, db.tasks, db.currentTree, name, newName) {
        r := Err(Panic(ConstraintViolation));
      } else {
        RenameLeaves(db.trees, db.tasks, db.notes, db.frames, db.hasState, db.currentTree, name, newName);
        db.trees := RenamedTree(db.trees, name, newName);
        r := Ok(newName);
      }
    }
  }

  /** `tree edit`: the tree's description becomes the text the editor
      returned; an unknown name is reported. */
  method Edit(db: Forest, name: string, edited: string) returns (r: Result<string>)
    requires db.Valid()
    modifies db
    ensures db.Valid()
    ensures db.tasks == old(db.tasks) && db.notes == old(db.notes) && db.frames == old(db.frames)
    ensures db.hasState == old(db.hasState) && db.currentTree == old(db.currentTree)
    ensures name !in old(db.trees) ==> r == Err(TreeNotFound(name)) && db.trees == old(db.trees)
    ensures name in old(db.trees) ==> r == Ok(name) && db.trees == old(db.trees)[name := edited]
  {
    if name !in db.trees {
      r := Err(TreeNotFound(name));
    } else {
      db.trees := db.trees[name := edited];
      r := Ok(name);
    }
  }

  // ---------------------------------------------------------------------------
  // list

  datatype ListFormat = ShortList | LongList

  /** One entry of the overview: a tree's header, marked when it is the
      current tree, or (long format) the tree's next task. */
  datatype TreeLine = Header(current: bool, tree: string) | NextTask(short: string, name: string, id: string)

  /** The key of `ORDER BY tree_name, left`, strictly. */
  predicate KeyBefore(a: Task, b: Task) {
    StrLt(a.tree, b.tree) || (a.tree == b.tree && a.left < b.left)
  }

  /** `ids` are rows with left between 1 and 2, in strict key order. */
  ghost predicate KeyOrdered(tasks: map<string, Task>, ids: seq<string>) {
    && (forall i :: 0 <= i < |ids| ==> ids[i] in tasks && 1 <= tasks[ids[i]].left <= 2)
    && (forall i, j :: 0 <= i < j < |ids| ==> KeyBefore(tasks[ids[i]], tasks[ids[j]]))
  }

  /** `ids` are all the rows with left between 1 and 2, in key order. */
  ghost predicate HeadRows(tasks: map<string, Task>, ids: seq<string>) {
    KeyOrdered(tasks, ids) && forall x :: x in tasks && 1 <= tasks[x].left <= 2 ==> x in ids
  }

  /** The query of `tree list`. */
  method SelectHeads(tasks: map<string, Task>) returns (ids: seq<string>)
    requires WellNested(tasks)
    ensures HeadRows(tasks, ids)
  {
    var rows := set x | x in tasks && 1 <= tasks[x].left <= 2;
    var le := (a: string, b: string) => a in tasks && b in tasks && (KeyBefore(tasks[a], tasks[b]) || a == b);
    forall a, b | a in rows && b in rows
      ensures le(a, b) || le(b, a)
    {
      StrLtTotal(tasks[a].tree, tasks[b].tree);
      if a != b && tasks[a].tree == tasks[b].tree {
        DistinctBoundaries(tasks, a, b);
      }
    }
    forall a, b, c | a in rows && b in rows && c in rows && le(a, b) && le(b, c)
      ensures le(a, c)
    {
      if StrLt(tasks[a].tree, tasks[b].tree) && StrLt(tasks[b].tree, tasks[c].tree) {
        StrLtTransitive(tasks[a].tree, tasks[b].tree, tasks[c].tree);
      }
    }
    ids := OrderBy(rows, le);
    forall i | 0 <= i < |ids|
      ensures ids[i] in tasks && 1 <= tasks[ids[i]].left <= 2
    {
      assert ids[i] in rows;
    }
    forall x | x in tasks && 1 <= tasks[x].left <= 2
      ensures x in ids
    {
      assert x in rows;
    }
  }

  /** What one fetched row prints. */
  function EntryOf(t: Task, id: string, format: ListFormat, current: string): (e: seq<TreeLine>)
    ensures t.left == 1 ==> e == [Header(t.tree == current, t.tree)]
    ensures t.left != 1 && format == ShortList ==> e == []
    ensures t.left != 1 && format == LongList ==> e == [NextTask(Short(id), t.name, id)]
  {
    if t.left == 1 then [Header(t.tree == current, t.tree)]
    else if format == ShortList then []
    else [NextTask(Short(id), t.name, id)]
  }

  /** What the rows `ids` print, in order. */
  function Entries(tasks: map<string, Task>, ids: seq<string>, format: ListFormat, current: string): seq<TreeLine>
    requires forall i :: 0 <= i < |ids| ==> ids[i] in tasks
  {
    if ids == [] then []
    else Entries(tasks, ids[..|ids| - 1], format, current) + EntryOf(tasks[ids[|ids| - 1]], ids[|ids| - 1], format, current)
  }

  /** `tree list`: the overview of the current tree's forest. */
  method List(db: Forest, format: ListFormat) returns (current: Option<string>, r: Result<seq<TreeLine>>)
    requires db.Valid()
    ensures current.None? <==> db.NoCurrent()
    ensures current.Some? ==> db.CurrentCandidate(current.value)
    ensures current.None? ==> r == Err(EmptyForest)
    ensures current.Some? ==> r.Ok? && exists ids :: HeadRows(db.tasks, ids) && r.value == Entries(db.tasks, ids, format, current.value)
  {
    current := GetCurrentTreeName(db);
    if current.None? {
      return current, Err(EmptyForest);
    }
    var ids := SelectHeads(db.tasks);
    var out := [];
    for i := 0 to |ids|
      invariant out == Entries(db.tasks, ids[..i], format, current.value)
    {
      assert ids[..i + 1][..i] == ids[..i];
      out := out + EntryOf(db.tasks[ids[i]], ids[i], format, current.value);
    }
    assert ids[..|ids|] == ids;
    r := Ok(out);
  }

  /** An entry comes from one of the rows. */
  lemma {:induction false} EntriesMember(tasks: map<string, Task>, ids: seq<string>, format: ListFormat, current: string, e: TreeLine)
    requires forall i :: 0 <= i < |ids| ==> ids[i] in tasks
    ensures e in Entries(tasks, ids, format, current) <==>
      exists i :: 0 <= i < |ids| && e in EntryOf(tasks[ids[i]], ids[i], format, current)
  {
    if ids != [] {
      var init := ids[..|ids| - 1];
      EntriesMember(tasks, init, format, current, e);
      if e in Entries(tasks, ids, format, current) && e !in Entries(tasks, init, format, current) {
        assert e in EntryOf(tasks[ids[|ids| - 1]], ids[|ids| - 1], format, current);
      }
      forall i | 0 <= i < |ids| - 1
        ensures ids[i] == init[i]
      {
      }
    }
  }

  /** The overview has a header for exactly the trees with a root, and marks
      exactly the current tree. */
  lemma HeadersAreRoots(tasks: map<string, Task>, ids: seq<string>, format: ListFormat, current: string, marked: bool, tree: string)
    requires HeadRows(tasks, ids)
    ensures Header(marked, tree) in Entries(tasks, ids, format, current) <==>
      HasRoot(tasks, tree) && marked == (tree == current)
  {
    EntriesMember(tasks, ids, format, current, Header(marked, tree));
    if HasRoot(tasks, tree) && marked == (tree == current) {
      var root :| IsRoot(tasks, tree, root);
      var i :| 0 <= i < |ids| && ids[i] == root;
      assert Header(marked, tree) in EntryOf(tasks[ids[i]], ids[i], format, current);
    }
    if Header(marked, tree) in Entries(tasks, ids, format, current) {
      var i :| 0 <= i < |ids| && Header(marked, tree) in EntryOf(tasks[ids[i]], ids[i], format, current);
      assert IsRoot(tasks, tree, ids[i]);
    }
  }

  /** The headers of `out` come in strictly increasing tree order. */
  predicate Ascending(out: seq<TreeLine>) {
    forall i, j :: 0 <= i < j < |out| && out[i].Header? && out[j].Header? ==> StrLt(out[i].tree, out[j].tree)
  }

  /** The headers come in strictly increasing tree order, so no tree is
      listed twice. */
  lemma {:induction false} HeadersAscending(tasks: map<string, Task>, ids: seq<string>, format: ListFormat, current: string)
    requires KeyOrdered(tasks, ids)
    ensures Ascending(Entries(tasks, ids, format, current))
  {
    if ids != [] {
      var init := ids[..|ids| - 1];
      var last := ids[|ids| - 1];
      assert forall k :: 0 <= k < |init| ==> init[k] == ids[k];
      HeadersAscending(tasks, init, format, current);
      var before := Entries(tasks, init, format, current);
      var out := Entries(tasks, ids, format, current);
      assert out == before + EntryOf(tasks[last], last, format, current);
      forall i, j | 0 <= i < j < |out| && out[i].Header? && out[j].Header?
        ensures StrLt(out[i].tree, out[j].tree)
      {
        if j >= |before| {
          assert out[j] == Header(tasks[last].tree == current, tasks[last].tree) && tasks[last].left == 1;
          assert out[i] in before;
          EntriesMember(tasks, init, format, current, out[i]);
          var k :| 0 <= k < |init| && out[i] in EntryOf(tasks[init[k]], init[k], format, current);
          assert tasks[init[k]].left == 1 && out[i].tree == tasks[init[k]].tree;
          assert init[k] == ids[k] && KeyBefore(tasks[ids[k]], tasks[last]);
          assert StrLt(tasks[init[k]].tree, tasks[last].tree);
        } else {
          assert out[i] == before[i] && out[j] == before[j];
          assert StrLt(before[i].tree, before[j].tree);
        }
      }
    }
  }

  /** In the long format every row prints one entry. */
  lemma {:induction false} LongEntries(tasks: map<string, Task>, ids: seq<string>, current: string)
    requires forall i :: 0 <= i < |ids| ==> ids[i] in tasks
    ensures var out := Entries(tasks, ids, LongList, current);
      |out| == |ids| && forall i :: 0 <= i < |ids| ==> [out[i]] == EntryOf(tasks[ids[i]], ids[i], LongList, current)
  {
    if ids != [] {
      var init := ids[..|ids| - 1];
      assert forall k :: 0 <= k < |init| ==> init[k] == ids[k];
      LongEntries(tasks, init, current);
    }
  }

  /** In the long format a next task follows the header of its own tree:
      the row with left = 2 sorts right after its tree's root. */
  lemma NextTaskFollowsHeader(tasks: map<string, Task>, ids: seq<string>, current: string, i: int)
    requires WellNested(tasks) && Rooted(tasks) && HeadRows(tasks, ids) && 0 <= i < |ids|
    ensures var out := Entries(tasks, ids, LongList, current);
      |out| == |ids| &&
      out[i].NextTask? ==>
        && out[i].id == ids[i] && tasks[ids[i]].left == 2 && i > 0
        && out[i - 1] == Header(tasks[ids[i]].tree == current, tasks[ids[i]].tree)
  {
    LongEntries(tasks, ids, current);
    var out := Entries(tasks, ids, LongList, current);
    var x := ids[i];
    var tree := tasks[x].tree;
    if tasks[x].left != 1 {
      assert HasRoot(tasks, tasks[x].tree);
      var root :| IsRoot(tasks, tree, root);
      var j :| 0 <= j < |ids| && ids[j] == root;
      if j > i {
        assert KeyBefore(tasks[x], tasks[root]);
        StrLtIrreflexive(tree);
      }
      assert j != i;
      if j < i - 1 {
        var y := ids[i - 1];
        assert KeyBefore(tasks[root], tasks[y]) && KeyBefore(tasks[y], tasks[x]);
        StrLtIrreflexive(tree);
        if StrLt(tree, tasks[y].tree) && StrLt(tasks[y].tree, tree) {
          StrLtTransitive(tree, tasks[y].tree, tree);
        }
      }
      assert j == i - 1;
      assert [out[i - 1]] == EntryOf(tasks[root], root, LongList, current);
    }
  }
}
