/** Opening a time frame on a tree (src/forest/timetracking.rs). */
module TimeTracking {
  import opened Outcomes
  import opened NestedSet
  import opened Db
  import opened DbUtils

  /** `start`: opens a frame, with no end, on the root of the named or
      current tree.  `frameId` is the generated id and `now` the clock
      reading the source takes.  Open frames are left as they are. */
  method Start(db: Forest, treeName: Option<string>, frameId: string, now: int)
    returns (tree: Option<string>, r: Result<string>)
    requires db.Valid()
    modifies db
    ensures db.Valid()
    ensures db.trees == old(db.trees) && db.tasks == old(db.tasks) && db.notes == old(db.notes)
    ensures db.hasState == old(db.hasState) && db.currentTree == old(db.currentTree)
    ensures treeName.Some? ==> tree == treeName
    ensures treeName.None? ==> (tree.None? <==> old(db.NoCurrent()))
    ensures treeName.None? && tree.Some? ==> old(db.CurrentCandidate(tree.value))
    ensures tree.None? ==> r == Err(EmptyForest) && db.frames == old(db.frames)
    ensures tree.Some? && !HasRoot(db.tasks, tree.value) ==>
      r == Err(TreeNotFound(tree.value)) && db.frames == old(db.frames)
    ensures tree.Some? && HasRoot(db.tasks, tree.value) && frameId in old(db.frames) ==>
      r == Err(Panic(DuplicateId)) && db.frames == old(db.frames)
    ensures tree.Some? && HasRoot(db.tasks, tree.value) && frameId !in old(db.frames) ==>
      && r == Ok(frameId)
      && frameId in db.frames && db.frames == old(db.frames)[frameId := db.frames[frameId]]
      && db.frames[frameId] == Frame(now, None, db.frames[frameId].task)
      && IsRoot(db.tasks, tree.value, db.frames[frameId].task)
  {
    tree := ResolveTree(db, treeName);
    if tree.None? {
      r := Err(EmptyForest);
    } else {
      var root := SelectRoot(db.tasks, tree.value);
      if root.None? {
        r := Err(TreeNotFound(tree.value));
      } else if frameId in db.frames {
        r := Err(Panic(DuplicateId));
      } else {
        db.frames := db.frames[frameId := Frame(now, None, root.value)];
        r := Ok(frameId);
      }
    }
  }
}
