/** The task commands (src/forest/task.rs): each resolves the current tree,
    works on the rows of that tree and leaves the store consistent. Every
    command also returns the tree it resolved, so that its contract can name
    it; the source prints it in its success messages. */
module Tasks {
  import opened Types
  import opened Outcomes
  import opened NestedSet
  import opened Reorder
  import opened Query
  import opened Listing
  import opened Db
  import opened DbUtils

  // ---------------------------------------------------------------------------
  // find_uid (task.rs:7-61)

  /** A row of the resolver's query: a task of `tree` other than its root whose
      id is `LIKE prefix || '%'`. */
  predicate Matches(tasks: map<string, Task>, tree: string, prefix: string, id: string) {
    id in tasks && tasks[id].tree == tree && tasks[id].left != 1 && LikePrefix(prefix, id)
  }

  /** All rows of the resolver's query. */
  function Matching(tasks: map<string, Task>, tree: string, prefix: string): set<string> {
    set id | id in tasks && Matches(tasks, tree, prefix, id)
  }

  /** `find_uid`: the one task of the tree, other than the root, whose id
      starts like `prefix`; not found when there is none; ambiguous, listing
      every matching id with its name, when there are several. */
  function FindUid(tasks: map<string, Task>, tree: string, prefix: string): (r: Result<string>)
    ensures r.Ok? <==> |Matching(tasks, tree, prefix)| == 1
    ensures r.Ok? ==> Matching(tasks, tree, prefix) == {r.value} && Matches(tasks, tree, prefix, r.value)
    ensures r.Err? ==> (r.error == TaskNotFound(prefix, tree) <==> Matching(tasks, tree, prefix) == {})
    ensures r.Err? && Matching(tasks, tree, prefix) != {} ==>
      && r.error.AmbiguousTask? && r.error.prefix == prefix
      && forall c :: c in r.error.candidates <==> c.0 in Matching(tasks, tree, prefix) && c.1 == tasks[c.0].name
  {
    var m := Matching(tasks, tree, prefix);
    if m == {} then Err(TaskNotFound(prefix, tree))
    else if |m| > 1 then Err(AmbiguousTask(prefix, set id | id in m :: (id, tasks[id].name)))
    else
      Singleton(m);
      var id :| m == {id};
      Ok(id)
  }

  /** An ambiguous answer lists at least two different tasks. */
  lemma AmbiguousListsTwo(tasks: map<string, Task>, tree: string, prefix: string)
    requires FindUid(tasks, tree, prefix).Err? && FindUid(tasks, tree, prefix).error.AmbiguousTask?
    ensures exists a, b ::
      && a in FindUid(tasks, tree, prefix).error.candidates
      && b in FindUid(tasks, tree, prefix).error.candidates && a.0 != b.0
  {
    var m := Matching(tasks, tree, prefix);
    var c := FindUid(tasks, tree, prefix).error.candidates;
    var a :| a in m;
    assert |m - {a}| >= 1;
    var b :| b in m - {a};
    assert (a, tasks[a].name) in c && (b, tasks[b].name) in c;
  }

  /** A task's full id resolves to that task, in its own tree, unless it is
      the root. */
  lemma FullUidResolves(tasks: map<string, Task>, id: string)
    requires forall x :: x in tasks ==> IsUid(x)
    requires id in tasks && tasks[id].left != 1
    ensures FindUid(tasks, tasks[id].tree, id) == Ok(id)
  {
    var m := Matching(tasks, tasks[id].tree, id);
    forall x | x in m
      ensures x == id
    {
      LikeFullUid(id, x);
    }
    ShortMatches(id);
    LikeFullUid(id, id);
    assert m == {id};
  }

  // ---------------------------------------------------------------------------
  // add (task.rs:70-223)

  /** `q` is the task `add` inserts under: the task the parent prefix
      resolves to, or the tree's root when no parent is given. */
  ghost predicate InsertsUnder(tasks: map<string, Task>, tree: string, parent: Option<string>, q: string) {
    q in tasks &&
    match parent
    case Some(prefix) => FindUid(tasks, tree, prefix) == Ok(q)
    case None => IsRoot(tasks, tree, q)
  }

  /** The table `add` leaves under parent `q`: the shifted table when the new
      id is already taken, the table with the new row [p, p + 1] otherwise.
      The shift at the parent's right updates the parent row itself, and the
      store stays consistent. */
  lemma AddLeaves(trees: map<string, string>, tasks: map<string, Task>, notes: map<string, Note>,
                  frames: map<string, Frame>, hasState: bool, cur: Option<string>,
                  q: string, id: string, name: string, description: string, tasks': map<string, Task>)
    requires Consistent(trees, tasks, notes, frames, hasState, cur)
    requires q in tasks && IsUid(id)
    requires var tree, p := tasks[q].tree, tasks[q].right;
      tasks' == if id in tasks then OpenGap(tasks, tree, p) else Inserted(tasks, tree, p, id, name, description)
    ensures q in GapRows(tasks, tasks[q].tree, tasks[q].right)
    ensures Consistent(trees, tasks', notes, frames, hasState, cur)
  {
    var tree, p := tasks[q].tree, tasks[q].right;
    OpenGapShifts(tasks, tree, q, q);
    if id in tasks {
      OpenGapValid(tasks, tree, q);
      assert RootsKept(tasks, tasks');
      forall x | x in tasks'
        ensures tasks'[x].tree in TreesOf(tasks)
      {
        assert tasks[x].tree in TreesOf(tasks);
      }
    } else {
      InsertValid(tasks, tree, q, id, name, description);
      OpenGapValid(tasks, tree, q);
      assert RootsKept(tasks, tasks');
      forall x | x in tasks'
        ensures tasks'[x].tree in TreesOf(tasks)
      {
        if x != id {
          assert tasks[x].tree in TreesOf(tasks);
        }
      }
    }
    ReplaceTasks(trees, tasks, tasks', notes, frames, hasState, cur);
  }

  /** The task `add` inserts under: the task the parent prefix resolves to,
      or the tree's root (looked up by `left = 1`) when no parent is given;
      the resolver's error, or the missing-root panic, otherwise. */
  method InsertionParent(tasks: map<string, Task>, tree: string, parent: Option<string>) returns (r: Result<string>)
    requires WellNested(tasks)
    ensures r.Ok? ==> InsertsUnder(tasks, tree, parent, r.value) && tasks[r.value].tree == tree
    ensures forall q :: InsertsUnder(tasks, tree, parent, q) ==> r == Ok(q)
    ensures parent.Some? && FindUid(tasks, tree, parent.value).Err? ==> r == Err(FindUid(tasks, tree, parent.value).error)
    ensures parent.None? && !HasRoot(tasks, tree) ==> r == Err(Panic(MissingRoot))
  {
    match parent {
      case Some(prefix) =>
        r := FindUid(tasks, tree, prefix);
      case None =>
        var roots := set x | x in tasks && IsRoot(tasks, tree, x);
        if roots == {} {
          forall x | x in tasks
            ensures !IsRoot(tasks, tree, x)
          {
            assert x !in roots;
          }
          return Err(Panic(MissingRoot));
        }
        var q :| q in roots;
        forall q' | InsertsUnder(tasks, tree, parent, q')
          ensures q' == q
        {
          RootUnique(tasks, tree, q, q');
        }
        r := Ok(q);
    }
  }

  /** `task add`: open a gap at the right of the parent (or of the root) and
      insert the new task [p, p + 1] there, as the last child of the parent.
      `newId` is the generated identifier and `description` the text the
      editor returned, when one was opened. */
  method Add(db: Forest, name: string, parent: Option<string>, description: string, newId: string)
    returns (tree: Option<string>, r: Result<string>)
    requires db.Valid() && IsUid(newId)
    modifies db
    ensures db.Valid()
    ensures db.trees == old(db.trees) && db.notes == old(db.notes) && db.frames == old(db.frames)
    ensures db.hasState == old(db.hasState) && db.currentTree == old(db.currentTree)
    ensures tree.None? <==> old(db.NoCurrent())
    ensures tree.Some? ==> old(db.CurrentCandidate(tree.value))
    ensures tree.None? ==> r == Err(EmptyForest) && db.tasks == old(db.tasks)
    ensures tree.Some? && parent.Some? && FindUid(old(db.tasks), tree.value, parent.value).Err? ==>
      r == Err(FindUid(old(db.tasks), tree.value, parent.value).error) && db.tasks == old(db.tasks)
    ensures tree.Some? && parent.None? && !HasRoot(old(db.tasks), tree.value) ==>
      r == Err(Panic(MissingRoot)) && db.tasks == old(db.tasks)
    ensures tree.Some? ==> forall q :: InsertsUnder(old(db.tasks), tree.value, parent, q) ==>
      var t0, p := old(db.tasks), old(db.tasks)[q].right;
      if FindUid(t0, tree.value, Short(newId)).Ok? then
        r == Err(Panic(UidCollision)) && db.tasks == t0
      else if newId in t0 then
        r == Err(Panic(DuplicateId)) && db.tasks == OpenGap(t0, tree.value, p)
      else
        r == Ok(newId) && db.tasks == Inserted(t0, tree.value, p, newId, name, description)
  {
    tree := GetCurrentTreeName(db);
    if tree.None? {
      r := Err(EmptyForest);
    } else {
      var current := tree.value;
      var t0 := db.tasks;
      var under := InsertionParent(t0, current, parent);
      if under.Err? {
        r := Err(under.error);
      } else if FindUid(t0, current, Short(newId)).Ok? {
        r := Err(Panic(UidCollision));
      } else {
        var q := under.value;
        var p := t0[q].right;
        var next := if newId in t0 then OpenGap(t0, current, p) else Inserted(t0, current, p, newId, name, description);
        // the parent row itself is shifted, so the update never touches zero rows
        AddLeaves(db.trees, t0, db.notes, db.frames, db.hasState, db.currentTree, q, newId, name, description, next);
        db.tasks := next;
        r := if newId in t0 then Err(Panic(DuplicateId)) else Ok(newId);
      }
    }
  }

  // ---------------------------------------------------------------------------
  // remove (task.rs:232-336)

  /** The tables `remove` leaves when it deletes `m` (not a root) and its
      descendants, lets the cascade run and closes the gap: the deletion
      takes `m` itself, the cascade drops no note and no frame (they sit on
      roots), and the store stays consistent. */
  lemma RemoveStep(trees: map<string, string>, tasks: map<string, Task>, notes: map<string, Note>,
                   frames: map<string, Frame>, hasState: bool, cur: Option<string>, m: string)
    requires Consistent(trees, tasks, notes, frames, hasState, cur)
    requires m in tasks && tasks[m].left != 1
    ensures var t := tasks[m]; var kept := DeleteSpan(tasks, t.tree, t.left, t.right);
      && m !in kept
      && NotesOf(notes, kept) == notes && FramesOf(frames, kept) == frames
      && Consistent(trees, Removed(tasks, t.tree, t.left, t.right), notes, frames, hasState, cur)
  {
    var t := tasks[m];
    CascadeKeeps(tasks, notes, frames, m);
    RemoveValid(tasks, m);
    RemovedShape(tasks, m);
    ReplaceTasks(trees, tasks, Removed(tasks, t.tree, t.left, t.right), notes, frames, hasState, cur);
  }

  /** Deleting the span of a non-root task takes the task itself and keeps
      every root, so the cascade drops no note and no frame. */
  lemma CascadeKeeps(tasks: map<string, Task>, notes: map<string, Note>, frames: map<string, Frame>, m: string)
    requires WellNested(tasks) && m in tasks && tasks[m].left != 1
    requires forall n :: n in notes ==> OnRoot(tasks, notes[n].task)
    requires forall f :: f in frames ==> OnRoot(tasks, frames[f].task)
    ensures var t := tasks[m]; var kept := DeleteSpan(tasks, t.tree, t.left, t.right);
      m !in kept && NotesOf(notes, kept) == notes && FramesOf(frames, kept) == frames
  {
    var t := tasks[m];
    SpanIsSubtree(tasks, m, m);
    var kept := DeleteSpan(tasks, t.tree, t.left, t.right);
    forall n | n in notes
      ensures notes[n].task in kept
    {
      assert OnRoot(tasks, notes[n].task);
    }
    forall f | f in frames
      ensures frames[f].task in kept
    {
      assert OnRoot(tasks, frames[f].task);
    }
  }

  /** Removing a non-root task keeps every root and moves no task to
      another tree. */
  lemma RemovedShape(tasks: map<string, Task>, m: string)
    requires WellNested(tasks) && m in tasks && tasks[m].left != 1
    ensures var t := tasks[m]; var r := Removed(tasks, t.tree, t.left, t.right);
      && RootsKept(tasks, r)
      && forall x :: x in r ==> x in tasks && r[x].tree in TreesOf(tasks)
  {
    var t := tasks[m];
    var r := Removed(tasks, t.tree, t.left, t.right);
    forall x | x in tasks
      ensures x in r ==> r[x].tree == tasks[x].tree && tasks[x].tree in TreesOf(tasks)
      ensures tasks[x].left == 1 ==> x in r && r[x].tree == tasks[x].tree && r[x].left == 1
    {
      RemovedRow(tasks, m, x);
      if tasks[x].left == 1 {
        RemoveKeepsRoots(tasks, m, x);
      }
    }
  }

  /** The same facts stated of the tables the statements of `remove` leave,
      so that a caller can phrase them over its own copies of the tables. */
  lemma RemoveLeaves(trees: map<string, string>, tasks: map<string, Task>, notes: map<string, Note>,
                     frames: map<string, Frame>, hasState: bool, cur: Option<string>, m: string,
                     tasks': map<string, Task>, notes': map<string, Note>, frames': map<string, Frame>)
    requires Consistent(trees, tasks, notes, frames, hasState, cur)
    requires m in tasks && tasks[m].left != 1
    requires var t := tasks[m]; var kept := DeleteSpan(tasks, t.tree, t.left, t.right);
      && tasks' == CloseGap(kept, t.tree, t.right, t.right - t.left + 1)
      && notes' == NotesOf(notes, kept) && frames' == FramesOf(frames, kept)
    ensures notes' == notes && frames' == frames
    ensures Consistent(trees, tasks', notes', frames', hasState, cur)
  {
    RemoveStep(trees, tasks, notes, frames, hasState, cur, m);
  }

  /** The tasks left after removing `m`: all but `m` and its descendants. */
  lemma RemovedMembers(tasks: map<string, Task>, m: string)
    requires WellNested(tasks) && m in tasks
    ensures var t := tasks[m]; forall x :: x in Removed(tasks, t.tree, t.left, t.right) <==>
      x in tasks && x != m && !(tasks[x].tree == t.tree && Encloses(t, tasks[x]))
  {
    var t := tasks[m];
    forall x | x in tasks
      ensures x in Removed(tasks, t.tree, t.left, t.right) <==> x != m && !(tasks[x].tree == t.tree && Encloses(t, tasks[x]))
    {
      RemovedRow(tasks, m, x);
    }
  }

  /** `task remove`: delete the resolved task and its whole subtree, then
      close the gap; notes and frames, which sit on roots, are kept. */
  method Remove(db: Forest, prefix: string) returns (tree: Option<string>, r: Result<string>)
    requires db.Valid()
    modifies db
    ensures db.Valid()
    ensures db.trees == old(db.trees) && db.notes == old(db.notes) && db.frames == old(db.frames)
    ensures db.hasState == old(db.hasState) && db.currentTree == old(db.currentTree)
    ensures tree.None? <==> old(db.NoCurrent())
    ensures tree.Some? ==> old(db.CurrentCandidate(tree.value))
    ensures tree.None? ==> r == Err(EmptyForest) && db.tasks == old(db.tasks)
    ensures tree.Some? && FindUid(old(db.tasks), tree.value, prefix).Err? ==>
      r == Err(FindUid(old(db.tasks), tree.value, prefix).error) && db.tasks == old(db.tasks)
    ensures tree.Some? && FindUid(old(db.tasks), tree.value, prefix).Ok? ==>
      var m := FindUid(old(db.tasks), tree.value, prefix).value;
      var t := old(db.tasks)[m];
      && r == Ok(m)
      && db.tasks == Removed(old(db.tasks), tree.value, t.left, t.right)
      && forall x :: x in db.tasks <==>
           x in old(db.tasks) && x != m && !(old(db.tasks)[x].tree == tree.value && Encloses(t, old(db.tasks)[x]))
  {
    tree := GetCurrentTreeName(db);
    if tree.None? {
      return tree, Err(EmptyForest);
    }
    var current := tree.value;
    var found := FindUid(db.tasks, current, prefix);
    if found.Err? {
      return tree, Err(found.error);
    }
    var m := found.value;
    var t0, n0, f0 := db.tasks, db.notes, db.frames;
    var t := t0[m];
    var kept := DeleteSpan(t0, current, t.left, t.right);
    var closed := CloseGap(kept, current, t.right, t.right - t.left + 1);
    var notes, frames := NotesOf(n0, kept), FramesOf(f0, kept);
    // the task itself is not among the kept rows, so the "not found" branch
    // after the DELETE cannot be taken
    RemoveLeaves(db.trees, t0, n0, f0, db.hasState, db.currentTree, m, closed, notes, frames);
    RemovedMembers(t0, m);
    db.tasks, db.notes, db.frames := closed, notes, frames;
    r := Ok(m);
  }

  // ---------------------------------------------------------------------------
  // rename and edit (task.rs:339-481)

  /** The rows `WHERE tree_name = tree AND id LIKE uid || '%'`. */
  function LikeRows(tasks: map<string, Task>, tree: string, uid: string): set<string> {
    set id | id in tasks && tasks[id].tree == tree && LikePrefix(uid, id)
  }

  /** `UPDATE task SET name = ? WHERE tree_name = ? AND id LIKE ? || '%'`. */
  function Renamed(tasks: map<string, Task>, tree: string, uid: string, name: string): (r: map<string, Task>)
    ensures r.Keys == tasks.Keys
  {
    map id | id in tasks :: if id in LikeRows(tasks, tree, uid) then tasks[id].(name := name) else tasks[id]
  }

  /** `UPDATE task SET description = ? WHERE tree_name = ? AND id LIKE ? || '%'`. */
  function Described(tasks: map<string, Task>, tree: string, uid: string, description: string): (r: map<string, Task>)
    ensures r.Keys == tasks.Keys
  {
    map id | id in tasks :: if id in LikeRows(tasks, tree, uid) then tasks[id].(description := description) else tasks[id]
  }

  /** The updates of `rename` and `edit` select exactly the resolved row, so
      their "exactly one row" panics cannot fire, and they change that row's
      name or description and nothing else. */
  lemma OneRowUpdated(tasks: map<string, Task>, tree: string, uid: string, name: string, description: string)
    requires forall x :: x in tasks ==> IsUid(x)
    requires uid in tasks && tasks[uid].tree == tree
    ensures LikeRows(tasks, tree, uid) == {uid}
    ensures Renamed(tasks, tree, uid, name) == tasks[uid := tasks[uid].(name := name)]
    ensures Described(tasks, tree, uid, description) == tasks[uid := tasks[uid].(description := description)]
  {
    forall x | x in LikeRows(tasks, tree, uid)
      ensures x == uid
    {
      LikeFullUid(uid, x);
    }
    LikeFullUid(uid, uid);
    assert uid in LikeRows(tasks, tree, uid);
  }

  /** Renaming or re-describing the resolved task keeps the store
      consistent. */
  lemma UpdateStep(trees: map<string, string>, tasks: map<string, Task>, notes: map<string, Note>,
                   frames: map<string, Frame>, hasState: bool, cur: Option<string>,
                   uid: string, name: string, description: string)
    requires Consistent(trees, tasks, notes, frames, hasState, cur) && uid in tasks
    ensures Consistent(trees, tasks[uid := tasks[uid].(name := name)], notes, frames, hasState, cur)
    ensures Consistent(trees, tasks[uid := tasks[uid].(description := description)], notes, frames, hasState, cur)
  {
    var renamed, described := tasks[uid := tasks[uid].(name := name)], tasks[uid := tasks[uid].(description := description)];
    SameShape(tasks, renamed);
    SameShape(tasks, described);
    ReplaceTasks(trees, tasks, renamed, notes, frames, hasState, cur);
    ReplaceTasks(trees, tasks, described, notes, frames, hasState, cur);
  }

  /** `task rename`: the resolved task gets `name`; nothing else changes. */
  method Rename(db: Forest, prefix: string, name: string) returns (tree: Option<string>, r: Result<string>)
    requires db.Valid()
    modifies db
    ensures db.Valid()
    ensures db.trees == old(db.trees) && db.notes == old(db.notes) && db.frames == old(db.frames)
    ensures db.hasState == old(db.hasState) && db.currentTree == old(db.currentTree)
    ensures tree.None? <==> old(db.NoCurrent())
    ensures tree.Some? ==> old(db.CurrentCandidate(tree.value))
    ensures tree.None? ==> r == Err(EmptyForest) && db.tasks == old(db.tasks)
    ensures tree.Some? && FindUid(old(db.tasks), tree.value, prefix).Err? ==>
      r == Err(FindUid(old(db.tasks), tree.value, prefix).error) && db.tasks == old(db.tasks)
    ensures tree.Some? && FindUid(old(db.tasks), tree.value, prefix).Ok? ==>
      var m := FindUid(old(db.tasks), tree.value, prefix).value;
      && r == Ok(m)
      && db.tasks == Renamed(old(db.tasks), tree.value, m, name)
      && db.tasks == old(db.tasks)[m := old(db.tasks)[m].(name := name)]
  {
    tree := GetCurrentTreeName(db);
    if tree.None? {
      return tree, Err(EmptyForest);
    }
    var t0 := db.tasks;
    var found := FindUid(t0, tree.value, prefix);
    if found.Err? {
      return tree, Err(found.error);
    }
    var m := found.value;
    // the update selects exactly the resolved row, so the "exactly one row"
    // check after it cannot fail
    OneRowUpdated(t0, tree.value, m, name, "");
    UpdateStep(db.trees, t0, db.notes, db.frames, db.hasState, db.currentTree, m, name, "");
    db.tasks := Renamed(t0, tree.value, m, name);
    r := Ok(m);
  }

  /** `task edit`: the resolved task gets the description the editor
      returned; nothing else changes. */
  method Edit(db: Forest, prefix: string, edited: string) returns (tree: Option<string>, r: Result<string>)
    requires db.Valid()
    modifies db
    ensures db.Valid()
    ensures db.trees == old(db.trees) && db.notes == old(db.notes) && db.frames == old(db.frames)
    ensures db.hasState == old(db.hasState) && db.currentTree == old(db.currentTree)
    ensures tree.None? <==> old(db.NoCurrent())
    ensures tree.Some? ==> old(db.CurrentCandidate(tree.value))
    ensures tree.None? ==> r == Err(EmptyForest) && db.tasks == old(db.tasks)
    ensures tree.Some? && FindUid(old(db.tasks), tree.value, prefix).Err? ==>
      r == Err(FindUid(old(db.tasks), tree.value, prefix).error) && db.tasks == old(db.tasks)
    ensures tree.Some? && FindUid(old(db.tasks), tree.value, prefix).Ok? ==>
      var m := FindUid(old(db.tasks), tree.value, prefix).value;
      && r == Ok(m)
      && db.tasks == Described(old(db.tasks), tree.value, m, edited)
      && db.tasks == old(db.tasks)[m := old(db.tasks)[m].(description := edited)]
  {
    tree := GetCurrentTreeName(db);
    if tree.None? {
      return tree, Err(EmptyForest);
    }
    var t0 := db.tasks;
    var found := FindUid(t0, tree.value, prefix);
    if found.Err? {
      return tree, Err(found.error);
    }
    var m := found.value;
    // the update selects exactly the resolved row, so the "exactly one row"
    // check after it cannot fail
    OneRowUpdated(t0, tree.value, m, "", edited);
    UpdateStep(db.trees, t0, db.notes, db.frames, db.hasState, db.currentTree, m, "", edited);
    db.tasks := Described(t0, tree.value, m, edited);
    r := Ok(m);
  }

  // ---------------------------------------------------------------------------
  // list (task.rs:484-589)

  /** `task list`: the lines of the current tree, drawn from its rows in
      left order; a tree without rows makes the source panic on the missing
      first row. The command only reads the store. */
  method List(db: Forest) returns (tree: Option<string>, r: Result<seq<Line>>)
    requires db.Valid()
    ensures tree.None? <==> db.NoCurrent()
    ensures tree.Some? ==> db.CurrentCandidate(tree.value)
    ensures tree.None? ==> r == Err(EmptyForest)
    ensures tree.Some? ==> (r.Err? <==> TreeRows(db.tasks, tree.value) == {})
    ensures tree.Some? && r.Err? ==> r.error == Panic(EmptyTree)
    ensures r.Ok? ==> tree.Some?
    ensures r.Ok? ==>
      exists ids :: ByLeft(db.tasks, tree.value, ids) && |ids| >= 1 && r.value == Lines(RowsOf(db.tasks, ids), ids)
  {
    tree := GetCurrentTreeName(db);
    if tree.None? {
      return tree, Err(EmptyForest);
    }
    var current := tree.value;
    var t0 := db.tasks;
    var ids := SelectByLeft(t0, current);
    if |ids| == 0 {
      return tree, Err(Panic(EmptyTree));
    }
    assert ids[0] in TreeRows(t0, current);
    assert HasRoot(t0, t0[ids[0]].tree);
    var root :| IsRoot(t0, current, root);
    LayeredRows(t0, current, ids, root);
    var lines := Draw(RowsOf(t0, ids), ids);
    r := Ok(lines);
  }

  // ---------------------------------------------------------------------------
  // priority (task.rs:650-920)

  /** `priority - 1` does not fit the `u32` the offset is converted to (a
      priority of 0 underflows): the conversion's `unwrap` panics. */
  predicate OutOfRange(priority: nat) {
    priority == 0 || priority - 1 > 0xFFFF_FFFF
  }

  /** `t` is the child of `m`'s parent `p` with `k` earlier siblings: the
      place `priority` moves `m` to, `m` itself counting among the children. */
  ghost predicate Target(tasks: map<string, Task>, m: string, p: string, t: string, k: int) {
    ParentOf(tasks, p, m) && t in ChildrenOf(tasks, p) && |SiblingsBefore(tasks, p, tasks[t].left)| == k
  }

  /** The table `priority` leaves when it moves `m` to the place of `t`: the
      store stays consistent and `m` ends with `k` earlier siblings under the
      same parent. */
  lemma PriorityLeaves(trees: map<string, string>, tasks: map<string, Task>, notes: map<string, Note>,
                       frames: map<string, Frame>, hasState: bool, cur: Option<string>,
                       m: string, p: string, t: string, k: nat, tasks': map<string, Task>)
    requires Consistent(trees, tasks, notes, frames, hasState, cur)
    requires Target(tasks, m, p, t, k) && tasks' == MovedTo(tasks, m, t)
    ensures Consistent(trees, tasks', notes, frames, hasState, cur)
    ensures m in tasks' && p in tasks' && Immediate(tasks', p, m)
    ensures |SiblingsBefore(tasks', p, tasks'[m].left)| == k
  {
    ParentIsImmediate(tasks, p, m);
    assert Siblings(tasks, p, m, t);
    MoveValid(tasks, p, m, t);
    MoveRank(tasks, p, m, t);
    MoveKeepsChildren(tasks, p, m, t, m);
    var M, T := tasks[m], tasks[t];
    forall x | x in tasks
      ensures tasks'[x].tree == tasks[x].tree && tasks[x].tree in TreesOf(tasks)
      ensures tasks[x].left == 1 ==> tasks'[x].left == 1
    {
      MovedRow(tasks, M.tree, M.left, M.right, T.left, T.right, x);
      if tasks[x].tree == M.tree {
        MovePair(tasks, p, m, t, x, x);
      }
    }
    ReplaceTasks(trees, tasks, tasks', notes, frames, hasState, cur);
  }

  /** The place `priority` picks is unique: one parent, one child of each
      rank. */
  lemma TargetUnique(tasks: map<string, Task>, m: string, p: string, t: string, p': string, t': string, k: nat)
    requires WellNested(tasks) && Target(tasks, m, p, t, k) && Target(tasks, m, p', t', k)
    ensures p == p' && t == t'
  {
    ParentUnique(tasks, p, p', m);
    RankUnique(tasks, p, t, t');
  }

  /** With `k` or more earlier siblings asked of a parent that has no more
      than `k` children, there is no place to move to. */
  lemma NoTarget(tasks: map<string, Task>, m: string, p: string, k: nat)
    requires WellNested(tasks) && ParentOf(tasks, p, m) && k >= |ChildrenOf(tasks, p)|
    ensures forall p', t :: !Target(tasks, m, p', t, k)
  {
    forall p', t | Target(tasks, m, p', t, k)
      ensures false
    {
      ParentUnique(tasks, p, p', m);
      RankBelowCount(tasks, p, t);
    }
  }

  /** The effect of `priority` once the task `m` is resolved: the parent
      and the target child are looked up, then `m` and its subtree move. */
  method MoveToRank(db: Forest, m: string, priority: nat) returns (r: Result<string>)
    requires db.Valid() && m in db.tasks && db.tasks[m].left != 1
    modifies db
    ensures db.Valid()
    ensures db.trees == old(db.trees) && db.notes == old(db.notes) && db.frames == old(db.frames)
    ensures db.hasState == old(db.hasState) && db.currentTree == old(db.currentTree)
    ensures var t0, k := old(db.tasks), priority - 1;
      if OutOfRange(priority) then
        r == Err(Panic(PriorityOutOfRange)) && db.tasks == t0
      else if forall p, t :: !Target(t0, m, p, t, k) then
        r == Err(Panic(NoSuchChild)) && db.tasks == t0
      else
        && r == Ok(m)
        && forall p, t :: Target(t0, m, p, t, k) ==>
             && db.tasks == MovedTo(t0, m, t)
             && Immediate(db.tasks, p, m)
             && |SiblingsBefore(db.tasks, p, db.tasks[m].left)| == k
  {
    var t0 := db.tasks;
    // the task is not a root, so its tree's root encloses it and the parent
    // query always returns a row
    assert HasRoot(t0, t0[m].tree);
    var root :| IsRoot(t0, t0[m].tree, root);
    ParentExists(t0, root, m);
    var parent := SelectParent(t0, m);
    var p := parent.value;
    if OutOfRange(priority) {
      r := Err(Panic(PriorityOutOfRange));
    } else {
      var k := priority - 1;
      var child := SelectChild(t0, p, k);
      if child.None? {
        NoTarget(t0, m, p, k);
        r := Err(Panic(NoSuchChild));
      } else {
        var t := child.value;
        assert Target(t0, m, p, t, k);
        var next := MovedTo(t0, m, t);
        // the moved task itself is updated, so the update never touches zero rows
        PriorityLeaves(db.trees, t0, db.notes, db.frames, db.hasState, db.currentTree, m, p, t, k, next);
        forall p', t' | Target(t0, m, p', t', k)
          ensures p' == p && t' == t
        {
          TargetUnique(t0, m, p, t, p', t', k);
        }
        db.tasks := next;
        r := Ok(m);
      }
    }
  }

  /** `task priority`: move the resolved task, with its subtree, to the
      `priority`-th place among its parent's children (the task itself
      counts among them), shifting the siblings in between. */
  method Priority(db: Forest, prefix: string, priority: nat) returns (tree: Option<string>, r: Result<string>)
    requires db.Valid() && priority < 0x1_0000_0000_0000_0000
    modifies db
    ensures db.Valid()
    ensures db.trees == old(db.trees) && db.notes == old(db.notes) && db.frames == old(db.frames)
    ensures db.hasState == old(db.hasState) && db.currentTree == old(db.currentTree)
    ensures tree.None? <==> old(db.NoCurrent())
    ensures tree.Some? ==> old(db.CurrentCandidate(tree.value))
    ensures tree.None? ==> r == Err(EmptyForest) && db.tasks == old(db.tasks)
    ensures tree.Some? && FindUid(old(db.tasks), tree.value, prefix).Err? ==>
      r == Err(FindUid(old(db.tasks), tree.value, prefix).error) && db.tasks == old(db.tasks)
    ensures tree.Some? && FindUid(old(db.tasks), tree.value, prefix).Ok? ==>
      var t0, m, k := old(db.tasks), FindUid(old(db.tasks), tree.value, prefix).value, priority - 1;
      if OutOfRange(priority) then
        r == Err(Panic(PriorityOutOfRange)) && db.tasks == t0
      else if forall p, t :: !Target(t0, m, p, t, k) then
        r == Err(Panic(NoSuchChild)) && db.tasks == t0
      else
        && r == Ok(m)
        && forall p, t :: Target(t0, m, p, t, k) ==>
             && db.tasks == MovedTo(t0, m, t)
             && Immediate(db.tasks, p, m)
             && |SiblingsBefore(db.tasks, p, db.tasks[m].left)| == k
  {
    tree := GetCurrentTreeName(db);
    if tree.None? {
      return tree, Err(EmptyForest);
    }
    var found := FindUid(db.tasks, tree.value, prefix);
    if found.Err? {
      return tree, Err(found.error);
    }
    r := MoveToRank(db, found.value, priority);
  }
}
