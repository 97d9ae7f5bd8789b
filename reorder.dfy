/** The queries and the two bulk updates by which `priority` moves a task and
    its subtree among its siblings (src/forest/task.rs:686-911). */
module Reorder {
  import opened NestedSet
  import opened Query
  import opened Outcomes

  // ---------------------------------------------------------------------------
  // Parent and children

  /** `x` is one of the rows of the parent query (task.rs:688-703): a task of
      `tree` whose interval strictly contains [ml, mr]. */
  predicate EnclosingRow(tasks: map<string, Task>, tree: string, ml: int, mr: int, x: string) {
    x in tasks && tasks[x].tree == tree && tasks[x].left < ml && mr < tasks[x].right
  }

  /** The rows of the parent query. */
  function Enclosing(tasks: map<string, Task>, tree: string, ml: int, mr: int): set<string> {
    set x | x in tasks && EnclosingRow(tasks, tree, ml, mr, x)
  }

  /** The `NOT EXISTS` part of the children query (task.rs:738-748): some task
      other than the parent and `c` starts inside the parent and covers c's left. */
  predicate HasMiddle(tasks: map<string, Task>, tree: string, pid: string, c: string)
    requires pid in tasks && c in tasks
  {
    exists mid :: mid in tasks && tasks[mid].tree == tree &&
      tasks[pid].left <= tasks[mid].left <= tasks[pid].right &&
      tasks[mid].left <= tasks[c].left <= tasks[mid].right &&
      mid != pid && mid != c
  }

  /** One row of the children query (task.rs:725-749). */
  predicate ChildRow(tasks: map<string, Task>, tree: string, pid: string, c: string)
    requires pid in tasks
  {
    c in tasks && tasks[c].tree == tree &&
    tasks[pid].left <= tasks[c].left <= tasks[pid].right && c != pid &&
    !HasMiddle(tasks, tree, pid, c)
  }

  /** The rows of the children query, before ordering and offset. */
  function Children(tasks: map<string, Task>, tree: string, pid: string): set<string>
    requires pid in tasks
  {
    set c | c in tasks && ChildRow(tasks, tree, pid, c)
  }

  /** `c` lies directly inside `p`: no task of the tree lies between them. */
  ghost predicate Immediate(tasks: map<string, Task>, p: string, c: string)
    requires p in tasks && c in tasks
  {
    Encloses(tasks[p], tasks[c]) &&
    forall mid :: mid in tasks && tasks[mid].tree == tasks[c].tree ==>
      !(Encloses(tasks[p], tasks[mid]) && Encloses(tasks[mid], tasks[c]))
  }

  /** `p` is the row the parent query returns for `m`: the enclosing task with
      the greatest left boundary. */
  ghost predicate ParentOf(tasks: map<string, Task>, p: string, m: string) {
    m in tasks && p in Enclosing(tasks, tasks[m].tree, tasks[m].left, tasks[m].right) &&
    forall x :: x in Enclosing(tasks, tasks[m].tree, tasks[m].left, tasks[m].right) ==> tasks[x].left <= tasks[p].left
  }

  /** The children query returns exactly the tasks that lie directly inside
      the parent. */
  lemma ChildrenAreImmediate(tasks: map<string, Task>, tree: string, pid: string, c: string)
    requires WellNested(tasks) && pid in tasks && tasks[pid].tree == tree
    ensures c in Children(tasks, tree, pid) <==> c in tasks && tasks[c].tree == tree && Immediate(tasks, pid, c)
  {
    if c in tasks && tasks[c].tree == tree {
      if c != pid {
        DistinctBoundaries(tasks, c, pid);
      }
      forall mid | mid in tasks && tasks[mid].tree == tree && Encloses(tasks[pid], tasks[mid]) && Encloses(tasks[mid], tasks[c])
        ensures HasMiddle(tasks, tree, pid, c)
      {
        assert tasks[mid].left <= tasks[c].left <= tasks[mid].right;
      }
      if c != pid && Immediate(tasks, pid, c) {
        NoMiddle(tasks, tree, pid, c);
      }
    }
  }

  /** No task lies between a parent and a task directly inside it, so the
      `NOT EXISTS` condition holds for it. */
  lemma NoMiddle(tasks: map<string, Task>, tree: string, pid: string, c: string)
    requires WellNested(tasks) && pid in tasks && c in tasks && tasks[pid].tree == tree && tasks[c].tree == tree
    requires Immediate(tasks, pid, c)
    ensures !HasMiddle(tasks, tree, pid, c)
  {
    forall mid | mid in tasks && tasks[mid].tree == tree && mid != pid && mid != c
      ensures !(tasks[pid].left <= tasks[mid].left <= tasks[pid].right &&
                tasks[mid].left <= tasks[c].left <= tasks[mid].right)
    {
      DistinctBoundaries(tasks, mid, pid);
      DistinctBoundaries(tasks, mid, c);
    }
  }

  /** The task the parent query returns lies directly above `m`. */
  lemma ParentIsImmediate(tasks: map<string, Task>, p: string, m: string)
    requires ParentOf(tasks, p, m)
    ensures p in tasks && Immediate(tasks, p, m)
  {
    forall mid | mid in tasks && tasks[mid].tree == tasks[m].tree
      ensures !(Encloses(tasks[p], tasks[mid]) && Encloses(tasks[mid], tasks[m]))
    {
      if Encloses(tasks[mid], tasks[m]) {
        assert mid in Enclosing(tasks, tasks[m].tree, tasks[m].left, tasks[m].right);
      }
    }
  }

  /** A task that is not its tree's root, in a tree that has a root, always
      has a parent, so the panic of task.rs:709-710 cannot fire there. */
  lemma ParentExists(tasks: map<string, Task>, root: string, m: string)
    requires WellNested(tasks) && root in tasks && m in tasks && root != m
    requires tasks[root].left == 1 && tasks[root].tree == tasks[m].tree
    ensures root in Enclosing(tasks, tasks[m].tree, tasks[m].left, tasks[m].right)
  {
    Pair(tasks, root, m);
  }

  // ---------------------------------------------------------------------------
  // The two moves

  /** The CASE of the left move (task.rs:790-815) on one boundary: the subtree
      [ml, mr] moves down to wl, the block [wl, ml - 1] moves up by its width. */
  function LeftPos(v: int, ml: int, mr: int, wl: int): int {
    if ml <= v <= mr then v - (ml - wl)
    else if wl <= v <= ml - 1 then v + (mr - ml + 1)
    else v
  }

  /** The CASE of the right move (task.rs:854-877) on one boundary: the subtree
      [ml, mr] moves up to end at wr, the block [mr + 1, wr] moves down by its width. */
  function RightPos(v: int, ml: int, mr: int, wr: int): int {
    if ml <= v <= mr then v + (wr - mr)
    else if mr + 1 <= v <= wr then v - (mr - ml + 1)
    else v
  }

  /** The left-move `UPDATE ... WHERE tree_name = tree`. */
  function MoveLeft(tasks: map<string, Task>, tree: string, ml: int, mr: int, wl: int): (r: map<string, Task>)
    ensures r.Keys == tasks.Keys
  {
    map id | id in tasks ::
      if tasks[id].tree == tree then
        tasks[id].(left := LeftPos(tasks[id].left, ml, mr, wl), right := LeftPos(tasks[id].right, ml, mr, wl))
      else tasks[id]
  }

  /** The right-move `UPDATE ... WHERE tree_name = tree`. */
  function MoveRight(tasks: map<string, Task>, tree: string, ml: int, mr: int, wr: int): (r: map<string, Task>)
    ensures r.Keys == tasks.Keys
  {
    map id | id in tasks ::
      if tasks[id].tree == tree then
        tasks[id].(left := RightPos(tasks[id].left, ml, mr, wr), right := RightPos(tasks[id].right, ml, mr, wr))
      else tasks[id]
  }

  /** The table after `priority` moved [ml, mr] to the target [wl, wr]: a left
      move, a right move, or no update when the target is the task itself. */
  function Moved(tasks: map<string, Task>, tree: string, ml: int, mr: int, wl: int, wr: int): (r: map<string, Task>)
    ensures r.Keys == tasks.Keys
    ensures forall id :: id in tasks && tasks[id].tree != tree ==> r[id] == tasks[id]
  {
    if wl < ml then MoveLeft(tasks, tree, ml, mr, wl)
    else if mr < wr then MoveRight(tasks, tree, ml, mr, wr)
    else tasks
  }

  /** The moved task `m` and the target `t` are both children of `p`. */
  ghost predicate Siblings(tasks: map<string, Task>, p: string, m: string, t: string) {
    p in tasks && m in tasks && t in tasks &&
    tasks[p].tree == tasks[m].tree && tasks[t].tree == tasks[m].tree &&
    Immediate(tasks, p, m) && Immediate(tasks, p, t)
  }

  /** A task lies wholly inside the block [lo, hi] or wholly outside it. */
  predicate Whole(t: Task, lo: int, hi: int) {
    (lo <= t.left <= hi) <==> (lo <= t.right <= hi)
  }

  /** Two distinct children of one parent are disjoint. */
  lemma SiblingsApart(tasks: map<string, Task>, p: string, m: string, t: string)
    requires WellNested(tasks) && Siblings(tasks, p, m, t) && m != t
    ensures Apart(tasks[m], tasks[t])
  {
    Pair(tasks, m, t);
  }

  /** Every task of the tree is wholly inside or wholly outside each of the
      blocks a move exchanges, so the CASE never tears a task apart. */
  lemma BlocksWhole(tasks: map<string, Task>, p: string, m: string, t: string, x: string)
    requires WellNested(tasks) && Siblings(tasks, p, m, t) && m != t
    requires x in tasks && tasks[x].tree == tasks[m].tree
    ensures var M := tasks[m]; var T := tasks[t];
      && Whole(tasks[x], M.left, M.right)
      && (T.left < M.left ==> Whole(tasks[x], T.left, M.left - 1))
      && (M.right < T.right ==> Whole(tasks[x], M.right + 1, T.right))
  {
    var P, M, T, X := tasks[p], tasks[m], tasks[t], tasks[x];
    SiblingsApart(tasks, p, m, t);
    if x != m {
      Pair(tasks, x, m);
      assert !(Encloses(P, X) && Encloses(X, M));
    }
    if x != t {
      Pair(tasks, x, t);
      assert !(Encloses(P, X) && Encloses(X, T));
    }
    if x != p {
      Pair(tasks, x, p);
    }
  }

  /** A move exchanges two adjacent blocks; a task wholly in one block or
      wholly outside both keeps its shape and its relation to every other
      such task. */
  lemma LeftMovePair(a: Task, b: Task, ml: int, mr: int, wl: int)
    requires wl < ml < mr && a.left < a.right && b.left < b.right
    requires Whole(a, ml, mr) && Whole(a, wl, ml - 1) && Whole(b, ml, mr) && Whole(b, wl, ml - 1)
    ensures var a', b' := a.(left := LeftPos(a.left, ml, mr, wl), right := LeftPos(a.right, ml, mr, wl)),
                          b.(left := LeftPos(b.left, ml, mr, wl), right := LeftPos(b.right, ml, mr, wl));
      && a'.left < a'.right
      && (Encloses(a', b') <==> Encloses(a, b))
      && (Apart(a', b') <==> Apart(a, b))
  {
  }

  /** The right-move counterpart of `LeftMovePair`. */
  lemma RightMovePair(a: Task, b: Task, ml: int, mr: int, wr: int)
    requires ml < mr < wr && a.left < a.right && b.left < b.right
    requires Whole(a, ml, mr) && Whole(a, mr + 1, wr) && Whole(b, ml, mr) && Whole(b, mr + 1, wr)
    ensures var a', b' := a.(left := RightPos(a.left, ml, mr, wr), right := RightPos(a.right, ml, mr, wr)),
                          b.(left := RightPos(b.left, ml, mr, wr), right := RightPos(b.right, ml, mr, wr));
      && a'.left < a'.right
      && (Encloses(a', b') <==> Encloses(a, b))
      && (Apart(a', b') <==> Apart(a, b))
  {
  }

  /** One row of `Moved`. */
  function MoveTask(x: Task, tree: string, ml: int, mr: int, wl: int, wr: int): Task {
    if x.tree != tree then x
    else if wl < ml then x.(left := LeftPos(x.left, ml, mr, wl), right := LeftPos(x.right, ml, mr, wl))
    else if mr < wr then x.(left := RightPos(x.left, ml, mr, wr), right := RightPos(x.right, ml, mr, wr))
    else x
  }

  /** `Moved` rewrites each row as `MoveTask` says. */
  lemma MovedRow(tasks: map<string, Task>, tree: string, ml: int, mr: int, wl: int, wr: int, x: string)
    requires x in tasks
    ensures Moved(tasks, tree, ml, mr, wl, wr)[x] == MoveTask(tasks[x], tree, ml, mr, wl, wr)
  {
  }

  /** The table after moving `m` to the place of `t`. */
  function MovedTo(tasks: map<string, Task>, m: string, t: string): map<string, Task>
    requires m in tasks && t in tasks
  {
    Moved(tasks, tasks[m].tree, tasks[m].left, tasks[m].right, tasks[t].left, tasks[t].right)
  }

  /** A target that is the moved task itself leaves the table as it was: neither
      update runs. */
  lemma MoveToSelf(tasks: map<string, Task>, m: string)
    requires m in tasks
    ensures MovedTo(tasks, m, m) == tasks
  {
  }

  /** Moving `m` to the place of its sibling `t` keeps each task of the tree
      proper, keeps its root at 1, and keeps every pair of tasks in the same
      relation: the hierarchy is unchanged, only the order of siblings is. */
  lemma MovePair(tasks: map<string, Task>, p: string, m: string, t: string, a: string, b: string)
    requires WellNested(tasks) && Siblings(tasks, p, m, t)
    requires a in tasks && b in tasks && tasks[a].tree == tasks[m].tree && tasks[b].tree == tasks[m].tree
    ensures var r := MovedTo(tasks, m, t);
      && r[a].left < r[a].right
      && (r[a].left == 1 <==> tasks[a].left == 1)
      && (Encloses(r[a], r[b]) <==> Encloses(tasks[a], tasks[b]))
      && (Apart(r[a], r[b]) <==> Apart(tasks[a], tasks[b]))
  {
    var P, M, T := tasks[p], tasks[m], tasks[t];
    MovedRow(tasks, M.tree, M.left, M.right, T.left, T.right, a);
    MovedRow(tasks, M.tree, M.left, M.right, T.left, T.right, b);
    if m != t {
      SiblingsApart(tasks, p, m, t);
      BlocksWhole(tasks, p, m, t, a);
      BlocksWhole(tasks, p, m, t, b);
      assert 1 <= P.left;
      if T.left < M.left {
        LeftMovePair(tasks[a], tasks[b], M.left, M.right, T.left);
        LeftMovePair(tasks[a], tasks[a], M.left, M.right, T.left);
      } else {
        RightMovePair(tasks[a], tasks[b], M.left, M.right, T.right);
        RightMovePair(tasks[a], tasks[a], M.left, M.right, T.right);
      }
    }
  }

  /** `priority` keeps the invariant. */
  lemma MoveValid(tasks: map<string, Task>, p: string, m: string, t: string)
    requires WellNested(tasks) && Siblings(tasks, p, m, t)
    ensures WellNested(MovedTo(tasks, m, t))
  {
    var r := MovedTo(tasks, m, t);
    var M, T := tasks[m], tasks[t];
    forall a | a in r
      ensures 1 <= r[a].left < r[a].right
    {
      MovedRow(tasks, M.tree, M.left, M.right, T.left, T.right, a);
      if tasks[a].tree == M.tree {
        MovePair(tasks, p, m, t, a, a);
      }
    }
    forall a, b | a in r && b in r && a != b && r[a].tree == r[b].tree
      ensures NestedOrApart(r[a], r[b])
      ensures r[a].left == 1 ==> Encloses(r[a], r[b])
    {
      MovedRow(tasks, M.tree, M.left, M.right, T.left, T.right, a);
      MovedRow(tasks, M.tree, M.left, M.right, T.left, T.right, b);
      Pair(tasks, a, b);
      if tasks[a].tree == M.tree {
        MovePair(tasks, p, m, t, a, b);
        MovePair(tasks, p, m, t, b, a);
      }
    }
  }

  /** The moved subtree lands where the target was: at the target's left on a
      move to the left, ending at the target's right on a move to the right. */
  lemma MoveLanding(tasks: map<string, Task>, p: string, m: string, t: string)
    requires WellNested(tasks) && Siblings(tasks, p, m, t)
    ensures var M, T, r := tasks[m], tasks[t], MovedTo(tasks, m, t);
      && (T.left <= M.left ==> r[m].left == T.left && r[m].right == T.left + (M.right - M.left))
      && (M.left < T.left ==> r[m].right == T.right && r[m].left == T.right - (M.right - M.left))
  {
    var M, T := tasks[m], tasks[t];
    MovedRow(tasks, M.tree, M.left, M.right, T.left, T.right, m);
    if m != t {
      SiblingsApart(tasks, p, m, t);
    }
  }

  /** The children of `p` that start before `v`. */
  ghost function SiblingsBefore(tasks: map<string, Task>, p: string, v: int): set<string>
    requires p in tasks
  {
    set c | c in tasks && tasks[c].tree == tasks[p].tree && Immediate(tasks, p, c) && tasks[c].left < v
  }

  /** The move keeps the children of the parent. */
  lemma MoveKeepsChildren(tasks: map<string, Task>, p: string, m: string, t: string, c: string)
    requires WellNested(tasks) && Siblings(tasks, p, m, t)
    requires c in tasks && tasks[c].tree == tasks[m].tree
    ensures var r := MovedTo(tasks, m, t); Immediate(r, p, c) <==> Immediate(tasks, p, c)
  {
    var r := MovedTo(tasks, m, t);
    var M, T := tasks[m], tasks[t];
    MovePair(tasks, p, m, t, p, c);
    MovedRow(tasks, M.tree, M.left, M.right, T.left, T.right, c);
    forall mid | mid in r
      ensures r[mid].tree == r[c].tree <==> tasks[mid].tree == tasks[c].tree
      ensures tasks[mid].tree == tasks[c].tree ==>
        ((Encloses(r[p], r[mid]) && Encloses(r[mid], r[c])) <==>
         (Encloses(tasks[p], tasks[mid]) && Encloses(tasks[mid], tasks[c])))
    {
      MovedRow(tasks, M.tree, M.left, M.right, T.left, T.right, mid);
      if tasks[mid].tree == tasks[c].tree {
        MovePair(tasks, p, m, t, p, mid);
        MovePair(tasks, p, m, t, mid, c);
      }
    }
  }

  /** After the move, a sibling `c` of `m` starts before `m` exactly when it
      started before the target, or, on a move to the right, is the target. */
  lemma MoveRankRow(tasks: map<string, Task>, p: string, m: string, t: string, c: string)
    requires WellNested(tasks) && Siblings(tasks, p, m, t)
    requires c in tasks && tasks[c].tree == tasks[m].tree && Immediate(tasks, p, c) && c != m
    ensures var r := MovedTo(tasks, m, t);
      r[c].left < r[m].left <==> tasks[c].left < tasks[t].left || (c == t && tasks[m].left < tasks[t].left)
  {
    var M, T := tasks[m], tasks[t];
    MovedRow(tasks, M.tree, M.left, M.right, T.left, T.right, m);
    MovedRow(tasks, M.tree, M.left, M.right, T.left, T.right, c);
    SiblingsApart(tasks, p, m, c);
    if m != t {
      SiblingsApart(tasks, p, m, t);
      if c != t {
        SiblingsApart(tasks, p, t, c);
      }
    }
  }

  /** One task's membership in the sets `MoveRank` compares. */
  lemma MoveRankMember(tasks: map<string, Task>, p: string, m: string, t: string, c: string)
    requires WellNested(tasks) && Siblings(tasks, p, m, t) && c in tasks
    ensures var r := MovedTo(tasks, m, t);
      c in SiblingsBefore(r, p, r[m].left) <==>
        (c in SiblingsBefore(tasks, p, tasks[t].left) && c != m) || (c == t && tasks[m].left < tasks[t].left)
  {
    var M, T := tasks[m], tasks[t];
    MovedRow(tasks, M.tree, M.left, M.right, T.left, T.right, p);
    MovedRow(tasks, M.tree, M.left, M.right, T.left, T.right, c);
    if tasks[c].tree == M.tree {
      MoveKeepsChildren(tasks, p, m, t, c);
      if c != m && Immediate(tasks, p, c) {
        MoveRankRow(tasks, p, m, t, c);
      }
    }
  }

  /** Swapping one member of a set for a non-member keeps its size. */
  lemma SwapCard(before: set<string>, after: set<string>, out: string, into: string)
    requires out in before && into !in before
    requires forall c :: c in after <==> (c in before && c != out) || c == into
    ensures |after| == |before|
  {
    assert after == before - {out} + {into};
  }

  /** `m` ends with as many earlier siblings as the target had: it takes the
      target's rank among the parent's children. */
  lemma MoveRank(tasks: map<string, Task>, p: string, m: string, t: string)
    requires WellNested(tasks) && Siblings(tasks, p, m, t)
    ensures var r := MovedTo(tasks, m, t);
      |SiblingsBefore(r, p, r[m].left)| == |SiblingsBefore(tasks, p, tasks[t].left)|
  {
    var r := MovedTo(tasks, m, t);
    var before := SiblingsBefore(tasks, p, tasks[t].left);
    var after := SiblingsBefore(r, p, r[m].left);
    forall c | c in tasks || c in after
      ensures c in after <==> (c in before && c != m) || (c == t && tasks[m].left < tasks[t].left)
    {
      MoveRankMember(tasks, p, m, t, c);
    }
    if tasks[m].left < tasks[t].left {
      assert Immediate(tasks, p, m);
      SwapCard(before, after, m, t);
    } else {
      assert after == before;
    }
  }

  // ---------------------------------------------------------------------------
  // The two queries

  /** The parent query (task.rs:688-703), `ORDER BY "left" DESC LIMIT 1`:
      the enclosing task with the greatest left, or no row. */
  method SelectParent(tasks: map<string, Task>, m: string) returns (p: Option<string>)
    requires m in tasks
    ensures p.None? <==> Enclosing(tasks, tasks[m].tree, tasks[m].left, tasks[m].right) == {}
    ensures p.Some? ==> ParentOf(tasks, p.value, m)
  {
    var rows := Enclosing(tasks, tasks[m].tree, tasks[m].left, tasks[m].right);
    var ge := (a: string, b: string) => a in tasks && b in tasks && tasks[a].left >= tasks[b].left;
    assert TotalPreorderOn(rows, ge);
    var sorted := OrderBy(rows, ge);
    if |sorted| == 0 {
      return None;
    }
    forall x | x in rows
      ensures tasks[x].left <= tasks[sorted[0]].left
    {
      assert x in sorted;
      var j :| 0 <= j < |sorted| && sorted[j] == x;
      if j > 0 {
        assert ge(sorted[0], sorted[j]);
      }
    }
    assert sorted[0] in rows;
    p := Some(sorted[0]);
  }

  /** The children of `p`: the tasks of its tree directly inside it. */
  ghost function ChildrenOf(tasks: map<string, Task>, p: string): set<string>
    requires p in tasks
  {
    set c | c in tasks && tasks[c].tree == tasks[p].tree && Immediate(tasks, p, c)
  }

  /** The children query returns the children of the parent. */
  lemma ChildrenQuery(tasks: map<string, Task>, pid: string)
    requires WellNested(tasks) && pid in tasks
    ensures Children(tasks, tasks[pid].tree, pid) == ChildrenOf(tasks, pid)
  {
    forall c | c in tasks
      ensures c in Children(tasks, tasks[pid].tree, pid) <==> c in ChildrenOf(tasks, pid)
    {
      ChildrenAreImmediate(tasks, tasks[pid].tree, pid, c);
    }
  }

  /** The children query (task.rs:720-767) with `ORDER BY "left" ASC LIMIT 1
      OFFSET k`: the child with exactly `k` earlier siblings, or no row when
      the parent has at most `k` children. */
  method SelectChild(tasks: map<string, Task>, pid: string, k: nat) returns (c: Option<string>)
    requires WellNested(tasks) && pid in tasks
    ensures c.None? <==> k >= |ChildrenOf(tasks, pid)|
    ensures c.Some? ==> c.value in ChildrenOf(tasks, pid) && |SiblingsBefore(tasks, pid, tasks[c.value].left)| == k
  {
    ChildrenQuery(tasks, pid);
    var rows := Children(tasks, tasks[pid].tree, pid);
    var le := (a: string, b: string) => a in tasks && b in tasks && tasks[a].left <= tasks[b].left;
    assert TotalPreorderOn(rows, le);
    var sorted := OrderBy(rows, le);
    if k >= |sorted| {
      return None;
    }
    var x := sorted[k];
    assert x in rows;
    var before := SiblingsBefore(tasks, pid, tasks[x].left);
    var prefix := set j | 0 <= j < k :: sorted[j];
    forall y | y in before
      ensures y in prefix
    {
      assert y in rows;
      var j :| 0 <= j < |sorted| && sorted[j] == y;
      if j >= k {
        assert le(sorted[k], sorted[j]);
      }
    }
    forall j | 0 <= j < k
      ensures sorted[j] in before
    {
      assert le(sorted[j], sorted[k]) && sorted[j] in rows;
      DistinctBoundaries(tasks, sorted[j], sorted[k]);
    }
    DistinctPrefixCard(sorted, k);
    assert before == prefix;
    c := Some(x);
  }

  /** A task other than a root has one parent: the enclosing tasks all have
      different lefts. */
  lemma ParentUnique(tasks: map<string, Task>, p: string, q: string, m: string)
    requires WellNested(tasks) && ParentOf(tasks, p, m) && ParentOf(tasks, q, m)
    ensures p == q
  {
    if p != q {
      DistinctBoundaries(tasks, p, q);
    }
  }

  /** Two children with as many earlier siblings are the same child. */
  lemma RankUnique(tasks: map<string, Task>, p: string, a: string, b: string)
    requires WellNested(tasks) && p in tasks && a in ChildrenOf(tasks, p) && b in ChildrenOf(tasks, p)
    requires |SiblingsBefore(tasks, p, tasks[a].left)| == |SiblingsBefore(tasks, p, tasks[b].left)|
    ensures a == b
  {
    if a != b {
      DistinctBoundaries(tasks, a, b);
      if tasks[a].left < tasks[b].left {
        RankGrows(tasks, p, a, b);
      } else {
        RankGrows(tasks, p, b, a);
      }
    }
  }

  /** A later child has more earlier siblings. */
  lemma RankGrows(tasks: map<string, Task>, p: string, a: string, b: string)
    requires p in tasks && a in ChildrenOf(tasks, p) && b in tasks && tasks[a].left < tasks[b].left
    ensures |SiblingsBefore(tasks, p, tasks[a].left)| < |SiblingsBefore(tasks, p, tasks[b].left)|
  {
    var lo, hi := SiblingsBefore(tasks, p, tasks[a].left), SiblingsBefore(tasks, p, tasks[b].left);
    assert lo <= hi && a in hi - lo;
    assert hi == lo + (hi - lo);
  }

  /** A child has fewer earlier siblings than its parent has children. */
  lemma RankBelowCount(tasks: map<string, Task>, p: string, c: string)
    requires p in tasks && c in ChildrenOf(tasks, p)
    ensures |SiblingsBefore(tasks, p, tasks[c].left)| < |ChildrenOf(tasks, p)|
  {
    var lo, all := SiblingsBefore(tasks, p, tasks[c].left), ChildrenOf(tasks, p);
    assert lo <= all && c in all - lo;
    assert all == lo + (all - lo);
  }
}
