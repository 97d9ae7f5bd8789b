/** The "next task" report over all trees (src/forest.rs). */
module ForestReport {
  import opened Types
  import opened Outcomes
  import opened NestedSet
  import opened Query
  import opened Db
  import opened DbUtils

  /** One entry: the marker of the current tree, the tree, the name of its
      task with left = 2, and that task's id when ids are shown. */
  datatype ReportLine = ReportLine(current: bool, tree: string, name: string, id: Option<string>)

  /** `ids` are the rows with left = 2, each once; the query has no
      `ORDER BY`, so any order is one the store may return. */
  ghost predicate FirstTasks(tasks: map<string, Task>, ids: seq<string>) {
    && (forall i :: 0 <= i < |ids| ==> ids[i] in tasks && tasks[ids[i]].left == 2)
    && (forall x :: x in tasks && tasks[x].left == 2 ==> x in ids)
    && Distinct(ids)
  }

  /** The query of `report`. */
  method SelectFirstTasks(tasks: map<string, Task>) returns (ids: seq<string>)
    ensures FirstTasks(tasks, ids)
  {
    var rows := set x | x in tasks && tasks[x].left == 2;
    ids := OrderBy(rows, (a: string, b: string) => true);
    forall i | 0 <= i < |ids|
      ensures ids[i] in tasks && tasks[ids[i]].left == 2
    {
      assert ids[i] in rows;
    }
  }

  /** The entry printed for the row `x`. */
  function EntryOf(tasks: map<string, Task>, x: string, current: string, showUid: bool): (e: ReportLine)
    requires x in tasks
    ensures e.current <==> tasks[x].tree == current
    ensures e.tree == tasks[x].tree && e.name == tasks[x].name
    ensures e.id.Some? <==> showUid
    ensures e.id.Some? ==> e.id.value == x
  {
    ReportLine(tasks[x].tree == current, tasks[x].tree, tasks[x].name, if showUid then Some(x) else None)
  }

  /** The entries of the rows `ids`, in order. */
  function Entries(tasks: map<string, Task>, ids: seq<string>, current: string, showUid: bool): (out: seq<ReportLine>)
    requires forall i :: 0 <= i < |ids| ==> ids[i] in tasks
    ensures |out| == |ids| && forall i :: 0 <= i < |ids| ==> out[i] == EntryOf(tasks, ids[i], current, showUid)
  {
    seq(|ids|, i requires 0 <= i < |ids| => EntryOf(tasks, ids[i], current, showUid))
  }

  /** `report`: the first task of every tree, the current tree marked; no
      current tree is an error. */
  method Report(db: Forest, showUid: bool) returns (current: Option<string>, r: Result<seq<ReportLine>>)
    requires db.Valid()
    ensures current.None? <==> db.NoCurrent()
    ensures current.Some? ==> db.CurrentCandidate(current.value)
    ensures current.None? ==> r == Err(EmptyForest)
    ensures current.Some? ==> r.Ok? && exists ids :: FirstTasks(db.tasks, ids) && r.value == Entries(db.tasks, ids, current.value, showUid)
  {
    current := GetCurrentTreeName(db);
    if current.None? {
      return current, Err(EmptyForest);
    }
    var ids := SelectFirstTasks(db.tasks);
    var out := [];
    for i := 0 to |ids|
      invariant out == Entries(db.tasks, ids[..i], current.value, showUid)
    {
      out := out + [EntryOf(db.tasks, ids[i], current.value, showUid)];
    }
    assert ids[..|ids|] == ids;
    r := Ok(out);
  }

  /** A tree appears in the report exactly when it has a task with
      left = 2, and then once: two tasks of one tree never share a left. */
  lemma OnePerTree(tasks: map<string, Task>, ids: seq<string>, current: string, showUid: bool, tree: string)
    requires WellNested(tasks) && FirstTasks(tasks, ids)
    ensures var out := Entries(tasks, ids, current, showUid);
      && ((exists i :: 0 <= i < |out| && out[i].tree == tree) <==> exists x :: x in tasks && tasks[x].tree == tree && tasks[x].left == 2)
      && forall i, j :: 0 <= i < j < |out| && out[i].tree == tree ==> out[j].tree != tree
  {
    var out := Entries(tasks, ids, current, showUid);
    if x :| x in tasks && tasks[x].tree == tree && tasks[x].left == 2 {
      var i :| 0 <= i < |ids| && ids[i] == x;
      assert out[i].tree == tree;
    }
    forall i, j | 0 <= i < j < |out| && out[i].tree == tree
      ensures out[j].tree != tree
    {
      if out[j].tree == tree {
        DistinctBoundaries(tasks, ids[i], ids[j]);
      }
    }
  }
}
