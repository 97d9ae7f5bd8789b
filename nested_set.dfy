/** The nested-set encoding of the task table (src/forest/task.rs).

    Each task row carries an interval [left, right] on its tree's line;
    ancestry is interval containment.  Every bulk `UPDATE ... SET left = CASE
    ... END, right = CASE ... END WHERE tree_name = ?` of the source is a
    function applied to every row against the old values, here a map
    comprehension over the table. */
module NestedSet {

  /** One row of the task table, keyed by its id in the table map. */
  datatype Task = Task(tree: string, left: int, right: int, name: string, description: string)

  /** `b` lies strictly inside `a`. */
  predicate Encloses(a: Task, b: Task) {
    a.left < b.left && b.right < a.right
  }

  /** The intervals of `a` and `b` do not meet. */
  predicate Apart(a: Task, b: Task) {
    a.right < b.left || b.right < a.left
  }

  /** Every interval is proper and starts at 1 or later. */
  ghost predicate Proper(tasks: map<string, Task>) {
    forall id :: id in tasks ==> 1 <= tasks[id].left < tasks[id].right
  }

  /** One of `a` and `b` lies inside the other, or they do not meet. */
  predicate NestedOrApart(a: Task, b: Task) {
    Encloses(a, b) || Encloses(b, a) || Apart(a, b)
  }

  /** Any two tasks of one tree are nested or disjoint.  The fact about a pair
      is drawn only where the pair's `NestedOrApart` is mentioned, which keeps
      the invariant from being expanded over every pair of rows in sight. */
  ghost predicate Laminar(tasks: map<string, Task>) {
    forall a, b {:trigger NestedOrApart(tasks[a], tasks[b])} ::
      a in tasks && b in tasks && a != b && tasks[a].tree == tasks[b].tree ==> NestedOrApart(tasks[a], tasks[b])
  }

  /** A tree's root, the task with left = 1, encloses every other task of its
      tree (drawn where the pair's `Encloses` is mentioned). */
  ghost predicate RootsEnclose(tasks: map<string, Task>) {
    forall a, b {:trigger Encloses(tasks[a], tasks[b])} ::
      a in tasks && b in tasks && a != b && tasks[a].tree == tasks[b].tree && tasks[a].left == 1 ==>
      Encloses(tasks[a], tasks[b])
  }

  /** The global invariant of the task table. */
  ghost predicate WellNested(tasks: map<string, Task>) {
    Proper(tasks) && Laminar(tasks) && RootsEnclose(tasks)
  }

  /** The invariant at one pair of tasks of a tree. */
  lemma Pair(tasks: map<string, Task>, a: string, b: string)
    requires WellNested(tasks) && a in tasks && b in tasks && a != b && tasks[a].tree == tasks[b].tree
    ensures NestedOrApart(tasks[a], tasks[b])
    ensures tasks[a].left == 1 ==> Encloses(tasks[a], tasks[b])
    ensures tasks[b].left == 1 ==> Encloses(tasks[b], tasks[a])
  {
  }

  /** Two distinct tasks of one tree are nested or disjoint and share no
      boundary value. */
  lemma DistinctBoundaries(tasks: map<string, Task>, a: string, b: string)
    requires WellNested(tasks) && a in tasks && b in tasks && a != b && tasks[a].tree == tasks[b].tree
    ensures NestedOrApart(tasks[a], tasks[b])
    ensures tasks[a].left == 1 ==> Encloses(tasks[a], tasks[b])
    ensures tasks[b].left == 1 ==> Encloses(tasks[b], tasks[a])
    ensures tasks[a].left != tasks[b].left && tasks[a].left != tasks[b].right
    ensures tasks[a].right != tasks[b].left && tasks[a].right != tasks[b].right
  {
    Pair(tasks, a, b);
  }

  /** A table with the same trees and intervals as a well-nested one is well
      nested: changing names or descriptions cannot break the invariant. */
  lemma SameShape(tasks: map<string, Task>, tasks': map<string, Task>)
    requires WellNested(tasks) && tasks'.Keys == tasks.Keys
    requires forall x :: x in tasks ==>
      tasks'[x].tree == tasks[x].tree && tasks'[x].left == tasks[x].left && tasks'[x].right == tasks[x].right
    ensures WellNested(tasks')
  {
    forall a, b | a in tasks' && b in tasks' && a != b && tasks'[a].tree == tasks'[b].tree
      ensures NestedOrApart(tasks'[a], tasks'[b])
      ensures tasks'[a].left == 1 ==> Encloses(tasks'[a], tasks'[b])
    {
      Pair(tasks, a, b);
    }
  }

  // ---------------------------------------------------------------------------
  // task add: open a gap of width 2 at the parent's right (task.rs:149-195)

  /** The CASE rewrite of one row when a gap opens at `p`. */
  function Widen(t: Task, tree: string, p: int): Task {
    if t.tree == tree && t.right >= p then
      t.(left := if t.left > p then t.left + 2 else t.left, right := t.right + 2)
    else t
  }

  /** `UPDATE task SET left = ..., right = ... WHERE right >= p AND tree_name = tree`. */
  function OpenGap(tasks: map<string, Task>, tree: string, p: int): (r: map<string, Task>)
    ensures r.Keys == tasks.Keys
  {
    map id | id in tasks :: Widen(tasks[id], tree, p)
  }

  /** The rows the shift of `add` updates. */
  function GapRows(tasks: map<string, Task>, tree: string, p: int): set<string> {
    set id | id in tasks && tasks[id].tree == tree && tasks[id].right >= p
  }

  /** The table after a successful `add`: the gap, then the new row [p, p + 1]. */
  function Inserted(tasks: map<string, Task>, tree: string, p: int, id: string, name: string, description: string): map<string, Task> {
    OpenGap(tasks, tree, p)[id := Task(tree, p, p + 1, name, description)]
  }

  /** How a boundary of the tree moves when the gap opens at `p`. */
  function Bump(v: int, p: int): int {
    if v >= p then v + 2 else v
  }

  /** Opening the gap at a task's right moves every boundary of the tree at or
      after `p` by 2 and leaves the others; rows of other trees are untouched
      and the parent row itself is among the updated rows, so the
      "at least one row" panic (task.rs:172-173) cannot fire. */
  lemma OpenGapShifts(tasks: map<string, Task>, tree: string, q: string, x: string)
    requires WellNested(tasks) && q in tasks && tasks[q].tree == tree && x in tasks
    ensures var p := tasks[q].right; var t := OpenGap(tasks, tree, p)[x];
      if tasks[x].tree == tree then
        t == tasks[x].(left := Bump(tasks[x].left, p), right := Bump(tasks[x].right, p))
      else t == tasks[x]
    ensures q in GapRows(tasks, tree, tasks[q].right)
  {
    if x != q && tasks[x].tree == tree {
      DistinctBoundaries(tasks, x, q);
    }
  }

  /** Each row after `add`: the new row sits at [p, p + 1]; the rows of the
      tree move as `Bump` says; the rows of other trees are unchanged. */
  lemma InsertedRow(tasks: map<string, Task>, tree: string, q: string, id: string, name: string, description: string, x: string)
    requires WellNested(tasks) && q in tasks && tasks[q].tree == tree && id !in tasks
    requires x == id || x in tasks
    ensures var p := tasks[q].right; var r := Inserted(tasks, tree, p, id, name, description);
      x in r &&
      if x == id then r[x] == Task(tree, p, p + 1, name, description)
      else if tasks[x].tree == tree then
        r[x] == tasks[x].(left := Bump(tasks[x].left, p), right := Bump(tasks[x].right, p))
      else r[x] == tasks[x]
  {
    if x != id {
      OpenGapShifts(tasks, tree, q, x);
    }
  }

  /** Insertion keeps the two tasks `a` and `b` nested or disjoint. */
  lemma InsertedPair(tasks: map<string, Task>, tree: string, q: string, id: string, name: string, description: string, a: string, b: string)
    requires WellNested(tasks) && q in tasks && tasks[q].tree == tree && id !in tasks
    requires var r := Inserted(tasks, tree, tasks[q].right, id, name, description);
      a in r && b in r && a != b && r[a].tree == r[b].tree
    ensures var r := Inserted(tasks, tree, tasks[q].right, id, name, description);
      && 1 <= r[a].left < r[a].right
      && NestedOrApart(r[a], r[b])
      && (r[a].left == 1 ==> Encloses(r[a], r[b]))
  {
    InsertedRow(tasks, tree, q, id, name, description, a);
    InsertedRow(tasks, tree, q, id, name, description, b);
    if a != id && b != id {
      Pair(tasks, a, b);
    } else if a == id {
      if b != q {
        DistinctBoundaries(tasks, b, q);
      }
    } else {
      if a != q {
        DistinctBoundaries(tasks, a, q);
        assert tasks[a].left == 1 ==> Encloses(tasks[a], tasks[q]);
      }
    }
  }

  /** `add` keeps the invariant. */
  lemma InsertValid(tasks: map<string, Task>, tree: string, q: string, id: string, name: string, description: string)
    requires WellNested(tasks) && q in tasks && tasks[q].tree == tree && id !in tasks
    ensures WellNested(Inserted(tasks, tree, tasks[q].right, id, name, description))
  {
    var r := Inserted(tasks, tree, tasks[q].right, id, name, description);
    forall a, b | a in r && b in r && a != b && r[a].tree == r[b].tree
      ensures 1 <= r[a].left < r[a].right
      ensures NestedOrApart(r[a], r[b])
      ensures r[a].left == 1 ==> Encloses(r[a], r[b])
    {
      InsertedPair(tasks, tree, q, id, name, description, a, b);
    }
    forall a | a in r
      ensures 1 <= r[a].left < r[a].right
    {
      InsertedRow(tasks, tree, q, id, name, description, a);
    }
  }

  /** The shift alone keeps the invariant and every root in place: the table
      `add` leaves behind when the INSERT after it fails (task.rs:198-213). */
  lemma OpenGapValid(tasks: map<string, Task>, tree: string, q: string)
    requires WellNested(tasks) && q in tasks && tasks[q].tree == tree
    ensures var r := OpenGap(tasks, tree, tasks[q].right);
      && WellNested(r)
      && forall x :: x in tasks ==> r[x].tree == tasks[x].tree && (r[x].left == 1 <==> tasks[x].left == 1)
  {
    var r := OpenGap(tasks, tree, tasks[q].right);
    forall a | a in r
      ensures 1 <= r[a].left < r[a].right
      ensures r[a].tree == tasks[a].tree && (r[a].left == 1 <==> tasks[a].left == 1)
    {
      OpenGapShifts(tasks, tree, q, a);
    }
    forall a, b | a in r && b in r && a != b && r[a].tree == r[b].tree
      ensures NestedOrApart(r[a], r[b])
      ensures r[a].left == 1 ==> Encloses(r[a], r[b])
    {
      OpenGapShifts(tasks, tree, q, a);
      OpenGapShifts(tasks, tree, q, b);
      Pair(tasks, a, b);
    }
  }

  /** `add` puts the new task right before its parent's new right, i.e. as
      the parent's last child, and the tasks that enclose it are exactly the
      parent and the parent's ancestors. */
  lemma InsertPlacement(tasks: map<string, Task>, tree: string, q: string, id: string, name: string, description: string, x: string)
    requires WellNested(tasks) && q in tasks && tasks[q].tree == tree && id !in tasks
    requires x in tasks && tasks[x].tree == tree
    ensures var p := tasks[q].right; var r := Inserted(tasks, tree, p, id, name, description);
      && r[id] == Task(tree, p, p + 1, name, description)
      && r[q].right == p + 2
      && (Encloses(r[x], r[id]) <==> x == q || Encloses(tasks[x], tasks[q]))
  {
    InsertedRow(tasks, tree, q, id, name, description, id);
    InsertedRow(tasks, tree, q, id, name, description, q);
    InsertedRow(tasks, tree, q, id, name, description, x);
    if x != q {
      DistinctBoundaries(tasks, x, q);
    }
  }

  // ---------------------------------------------------------------------------
  // task remove: delete the subtree, then close the gap (task.rs:270-316)

  /** The row is selected by `tree_name = tree AND left BETWEEN l AND r`. */
  predicate InSpan(t: Task, tree: string, l: int, r: int) {
    t.tree == tree && l <= t.left <= r
  }

  /** `DELETE FROM task WHERE tree_name = tree AND left BETWEEN l AND r`. */
  function DeleteSpan(tasks: map<string, Task>, tree: string, l: int, r: int): (d: map<string, Task>)
    ensures d.Keys <= tasks.Keys
    ensures forall id :: id in d ==> d[id] == tasks[id]
  {
    map id | id in tasks && !InSpan(tasks[id], tree, l, r) :: tasks[id]
  }

  /** The CASE rewrite of one row when the gap after `r` closes by `shift`. */
  function Narrow(t: Task, tree: string, r: int, shift: int): Task {
    if t.tree == tree then
      t.(left := if t.left > r then t.left - shift else t.left,
         right := if t.right > r then t.right - shift else t.right)
    else t
  }

  /** `UPDATE task SET left = ..., right = ... WHERE tree_name = tree`. */
  function CloseGap(tasks: map<string, Task>, tree: string, r: int, shift: int): (c: map<string, Task>)
    ensures c.Keys == tasks.Keys
  {
    map id | id in tasks :: Narrow(tasks[id], tree, r, shift)
  }

  /** The table after a successful `remove` of the task [l, r] of `tree`. */
  function Removed(tasks: map<string, Task>, tree: string, l: int, r: int): map<string, Task> {
    CloseGap(DeleteSpan(tasks, tree, l, r), tree, r, r - l + 1)
  }

  /** The rows `left BETWEEN l AND r` selects are the task itself and its
      descendants, so the deletion never affects zero rows (task.rs:289-290). */
  lemma SpanIsSubtree(tasks: map<string, Task>, m: string, x: string)
    requires WellNested(tasks) && m in tasks && x in tasks
    ensures InSpan(tasks[x], tasks[m].tree, tasks[m].left, tasks[m].right) <==>
      x == m || (tasks[x].tree == tasks[m].tree && Encloses(tasks[m], tasks[x]))
  {
    if x != m && tasks[x].tree == tasks[m].tree {
      DistinctBoundaries(tasks, x, m);
    }
  }

  /** How a surviving boundary of the tree moves when [l, r] is cut out. */
  function Shrink(v: int, l: int, r: int): int {
    if v > r then v - (r - l + 1) else v
  }

  /** Each row after `remove` of `m`: the task and its descendants are gone;
      a survivor of the tree has both boundaries outside [l, r] and moves as
      `Shrink` says; rows of other trees are unchanged. */
  lemma RemovedRow(tasks: map<string, Task>, m: string, x: string)
    requires WellNested(tasks) && m in tasks && x in tasks
    ensures var t := tasks[m]; var r := Removed(tasks, t.tree, t.left, t.right);
      && (x in r <==> !(x == m || (tasks[x].tree == t.tree && Encloses(t, tasks[x]))))
      && (x in r && tasks[x].tree == t.tree ==>
            && !(t.left <= tasks[x].left <= t.right) && !(t.left <= tasks[x].right <= t.right)
            && r[x] == tasks[x].(left := Shrink(tasks[x].left, t.left, t.right),
                                 right := Shrink(tasks[x].right, t.left, t.right)))
      && (x in r && tasks[x].tree != t.tree ==> r[x] == tasks[x])
  {
    SpanIsSubtree(tasks, m, x);
    if x != m && tasks[x].tree == tasks[m].tree {
      DistinctBoundaries(tasks, x, m);
    }
  }

  /** `remove` keeps the two surviving tasks `a` and `b` nested or disjoint. */
  lemma RemovedPair(tasks: map<string, Task>, m: string, a: string, b: string)
    requires WellNested(tasks) && m in tasks
    requires var t := tasks[m]; var r := Removed(tasks, t.tree, t.left, t.right);
      a in r && b in r && a != b && r[a].tree == r[b].tree
    ensures var t := tasks[m]; var r := Removed(tasks, t.tree, t.left, t.right);
      && NestedOrApart(r[a], r[b])
      && (r[a].left == 1 ==> Encloses(r[a], r[b]))
  {
    RemovedRow(tasks, m, a);
    RemovedRow(tasks, m, b);
    Pair(tasks, a, b);
  }

  /** `remove` keeps the invariant. */
  lemma RemoveValid(tasks: map<string, Task>, m: string)
    requires WellNested(tasks) && m in tasks
    ensures var t := tasks[m]; WellNested(Removed(tasks, t.tree, t.left, t.right))
  {
    var t := tasks[m];
    var r := Removed(tasks, t.tree, t.left, t.right);
    forall a | a in r
      ensures 1 <= r[a].left < r[a].right
    {
      RemovedRow(tasks, m, a);
    }
    forall a, b | a in r && b in r && a != b && r[a].tree == r[b].tree
      ensures NestedOrApart(r[a], r[b])
      ensures r[a].left == 1 ==> Encloses(r[a], r[b])
    {
      RemovedPair(tasks, m, a, b);
    }
  }

  /** Removing a task that is not a root leaves every root in place, so its
      tree keeps the row the next `add` and `start` look up. */
  lemma RemoveKeepsRoots(tasks: map<string, Task>, m: string, x: string)
    requires WellNested(tasks) && m in tasks && tasks[m].left != 1
    requires x in tasks && tasks[x].left == 1
    ensures var t := tasks[m]; var r := Removed(tasks, t.tree, t.left, t.right);
      x in r && r[x].left == 1
  {
    RemovedRow(tasks, m, x);
    if tasks[x].tree == tasks[m].tree {
      assert Encloses(tasks[x], tasks[m]);
    }
  }

  /** No task of `tree` starts at `p`. */
  ghost predicate NoLeftAt(tasks: map<string, Task>, tree: string, p: int) {
    forall x :: x in tasks && tasks[x].tree == tree ==> tasks[x].left != p
  }

  /** One row of the round trip: `Narrow` undoes `Widen` away from `p`. */
  lemma NarrowWiden(t: Task, tree: string, p: int)
    requires t.left < t.right && (t.tree == tree ==> t.left != p)
    ensures !InSpan(Widen(t, tree, p), tree, p, p + 1)
    ensures Narrow(Widen(t, tree, p), tree, p + 1, 2) == t
  {
  }

  /** Opening the gap at `p`, inserting there and cutting [p, p + 1] out again
      is the identity on a table none of whose tasks of `tree` starts at `p`. */
  lemma {:induction false} GapRoundTrip(tasks: map<string, Task>, tree: string, p: int, id: string, name: string, description: string)
    requires Proper(tasks) && NoLeftAt(tasks, tree, p) && id !in tasks
    ensures Removed(Inserted(tasks, tree, p, id, name, description), tree, p, p + 1) == tasks
  {
    var i := Inserted(tasks, tree, p, id, name, description);
    var d := DeleteSpan(i, tree, p, p + 1);
    forall x | x in tasks
      ensures x in d && d[x] == Widen(tasks[x], tree, p)
    {
      NarrowWiden(tasks[x], tree, p);
    }
    assert d.Keys == tasks.Keys;
    forall x | x in tasks
      ensures Narrow(d[x], tree, p + 1, 2) == tasks[x]
    {
      NarrowWiden(tasks[x], tree, p);
    }
  }

  /** Adding a task under `q` and then removing that same task gives back the
      table exactly: every other task has its old interval again. */
  lemma AddThenRemove(tasks: map<string, Task>, tree: string, q: string, id: string, name: string, description: string)
    requires WellNested(tasks) && q in tasks && tasks[q].tree == tree && id !in tasks
    ensures var p := tasks[q].right;
      Removed(Inserted(tasks, tree, p, id, name, description), tree, p, p + 1) == tasks
  {
    forall x | x in tasks && tasks[x].tree == tree
      ensures tasks[x].left != tasks[q].right
    {
      if x != q {
        DistinctBoundaries(tasks, x, q);
      }
    }
    GapRoundTrip(tasks, tree, tasks[q].right, id, name, description);
  }
}
