/** What `task list` prints for one tree (src/forest/task.rs:484-589), as
    abstract tokens: one line per task after the first row, made of indent
    tokens, a branch glyph, the task's short id and its name. */
module Listing {
  import opened Types
  import opened NestedSet
  import opened Query

  /** One indent level: "  " or "│ ". */
  datatype Indent = Blank | Bar

  /** The glyph before a task: "├╴" or "└╴". */
  datatype Glyph = Branch | Last

  datatype Line = Line(indent: seq<Indent>, glyph: Glyph, short: string, name: string)

  /** Rows in ascending left order, each one proper, each two nested or
      disjoint: the rows of one tree as the listing query returns them. */
  ghost predicate Layered(rows: seq<Task>) {
    && (forall i :: 0 <= i < |rows| ==> rows[i].left < rows[i].right)
    && (forall i, j :: 0 <= i < j < |rows| ==>
          rows[i].left < rows[j].left && (Encloses(rows[i], rows[j]) || rows[i].right < rows[j].left))
  }

  /** The rights of the rows among `rows[..n]` that enclose `rows[j]`, in row
      order. */
  function Anc(rows: seq<Task>, j: nat, n: nat): seq<int>
    requires j < |rows| && n <= |rows|
  {
    if n == 0 then []
    else Anc(rows, j, n - 1) + (if Encloses(rows[n - 1], rows[j]) then [rows[n - 1].right] else [])
  }

  /** The rights of the ancestors of `rows[k]`, outermost first (in a layered
      sequence every ancestor comes before the task). */
  function Ancestors(rows: seq<Task>, k: nat): seq<int>
    requires k < |rows|
  {
    Anc(rows, k, k)
  }

  /** The elements of `s` above `v`, in order. */
  function Above(s: seq<int>, v: int): (r: seq<int>)
    ensures |r| <= |s|
  {
    if s == [] then []
    else Above(s[..|s| - 1], v) + (if s[|s| - 1] > v then [s[|s| - 1]] else [])
  }

  /** Row `j` is pushed after it is printed: the first row always, any other
      row when it is wider than 1. */
  predicate Pushed(rows: seq<Task>, j: nat)
    requires j < |rows|
  {
    j == 0 || rows[j].right - rows[j].left > 1
  }

  /** What the stack holds when row `k` comes up, before any pop. */
  function StackBefore(rows: seq<Task>, k: nat): seq<int>
    requires 1 <= k <= |rows|
  {
    Ancestors(rows, k - 1) + (if Pushed(rows, k - 1) then [rows[k - 1].right] else [])
  }

  /** One indent per ancestor level below the outermost: blank when the
      deeper ancestor ends just inside the shallower one, a bar otherwise. */
  function Indents(a: seq<int>): (r: seq<Indent>)
    ensures |a| > 0 ==> |r| == |a| - 1
    ensures forall i :: 0 <= i < |a| - 1 ==> r[i] == if a[i + 1] == a[i] - 1 then Blank else Bar
  {
    if |a| <= 1 then [] else seq(|a| - 1, i requires 0 <= i < |a| - 1 => if a[i + 1] == a[i] - 1 then Blank else Bar)
  }

  /** The line of `rows[k]` given the rights of its ancestors. */
  function LineOf(rows: seq<Task>, ids: seq<string>, k: nat): Line
    requires 1 <= k < |rows| == |ids|
  {
    var a := Ancestors(rows, k);
    Line(Indents(a),
         if |a| > 0 && rows[k].right == a[|a| - 1] - 1 then Last else Branch,
         Short(ids[k]), rows[k].name)
  }

  /** The whole listing: a line for every row after the first. */
  function Lines(rows: seq<Task>, ids: seq<string>): (r: seq<Line>)
    requires 1 <= |rows| == |ids|
    ensures |r| == |rows| - 1
    ensures forall k :: 1 <= k < |rows| ==> r[k - 1] == LineOf(rows, ids, k)
  {
    seq(|rows| - 1, i requires 0 <= i < |rows| - 1 => LineOf(rows, ids, i + 1))
  }

  // ---------------------------------------------------------------------------
  // The stack discipline

  /** `s` strictly decreases. */
  predicate Decreasing(s: seq<int>) {
    forall i, j :: 0 <= i < j < |s| ==> s[i] > s[j]
  }

  lemma {:induction false} AboveAppend(s: seq<int>, t: seq<int>, v: int)
    ensures Above(s + t, v) == Above(s, v) + Above(t, v)
    decreases |t|
  {
    if t != [] {
      assert (s + t)[..|s + t| - 1] == s + t[..|t| - 1];
      AboveAppend(s, t[..|t| - 1], v);
    } else {
      assert s + t == s;
    }
  }

  /** Every element of `Anc(rows, j, n)` is the right of an earlier row that
      encloses row `j`. */
  lemma {:induction false} AncElements(rows: seq<Task>, j: nat, n: nat, x: int)
    requires j < |rows| && n <= |rows| && x in Anc(rows, j, n)
    ensures exists i :: 0 <= i < n && rows[i].right == x && Encloses(rows[i], rows[j])
  {
    if x !in Anc(rows, j, n - 1) {
      assert rows[n - 1].right == x && Encloses(rows[n - 1], rows[j]);
    } else {
      AncElements(rows, j, n - 1, x);
    }
  }

  /** The ancestors' rights strictly decrease and all lie beyond the task. */
  lemma {:induction false} AncDecreasing(rows: seq<Task>, j: nat, n: nat)
    requires Layered(rows) && j < |rows| && n <= j
    ensures Decreasing(Anc(rows, j, n))
    ensures forall x :: x in Anc(rows, j, n) ==> x > rows[j].right
  {
    if n > 0 {
      AncDecreasing(rows, j, n - 1);
      var prev := Anc(rows, j, n - 1);
      if Encloses(rows[n - 1], rows[j]) {
        forall i | 0 <= i < |prev|
          ensures prev[i] > rows[n - 1].right
        {
          AncElements(rows, j, n - 1, prev[i]);
          var a :| 0 <= a < n - 1 && rows[a].right == prev[i] && Encloses(rows[a], rows[j]);
          EnclosingPair(rows, a, n - 1, j);
        }
      }
    }
  }

  /** Two earlier rows that enclose the same row are nested. */
  lemma EnclosingPair(rows: seq<Task>, a: nat, b: nat, j: nat)
    requires Layered(rows) && a < b < j < |rows|
    requires Encloses(rows[a], rows[j]) && Encloses(rows[b], rows[j])
    ensures Encloses(rows[a], rows[b])
  {
    var ta, tb := rows[a], rows[b];
    assert Encloses(ta, tb) || ta.right < tb.left;
  }

  /** Filtering the ancestors of row `k - 1` to the values above `rows[k]`'s
      left leaves the ancestors of row `k` among the same rows. */
  lemma {:induction false} AboveAnc(rows: seq<Task>, k: nat, n: nat)
    requires Layered(rows) && 1 <= k < |rows| && n <= k - 1
    ensures Above(Anc(rows, k - 1, n), rows[k].left) == Anc(rows, k, n)
  {
    if n > 0 {
      AboveAnc(rows, k, n - 1);
      AboveAppend(Anc(rows, k - 1, n - 1),
                  if Encloses(rows[n - 1], rows[k - 1]) then [rows[n - 1].right] else [],
                  rows[k].left);
      var i := n - 1;
      assert Encloses(rows[i], rows[k - 1]) || rows[i].right < rows[k - 1].left;
      assert Encloses(rows[i], rows[k]) || rows[i].right < rows[k].left;
      assert Encloses(rows[k - 1], rows[k]) || rows[k - 1].right < rows[k].left;
      if !Encloses(rows[i], rows[k - 1]) {
        assert Anc(rows, k - 1, n) == Anc(rows, k - 1, n - 1);
      }
      assert Above([rows[i].right], rows[k].left) == (if rows[i].right > rows[k].left then [rows[i].right] else []);
    }
  }

  /** Popping every top below `rows[k]`'s left from the stack leaves exactly
      the rights of `rows[k]`'s ancestors. */
  lemma StackAbove(rows: seq<Task>, k: nat)
    requires Layered(rows) && 1 <= k < |rows|
    ensures Above(StackBefore(rows, k), rows[k].left) == Ancestors(rows, k)
  {
    var pushed := if Pushed(rows, k - 1) then [rows[k - 1].right] else [];
    AboveAppend(Ancestors(rows, k - 1), pushed, rows[k].left);
    AboveAnc(rows, k, k - 1);
    assert Above([rows[k - 1].right], rows[k].left) == (if rows[k - 1].right > rows[k].left then [rows[k - 1].right] else []);
    assert Encloses(rows[k - 1], rows[k]) || rows[k - 1].right < rows[k].left;
  }

  /** The stack strictly decreases and never holds the left of the row that
      comes up. */
  lemma StackDecreasing(rows: seq<Task>, k: nat)
    requires Layered(rows) && 1 <= k < |rows|
    ensures Decreasing(StackBefore(rows, k))
    ensures rows[k].left !in StackBefore(rows, k)
  {
    var anc := Ancestors(rows, k - 1);
    AncDecreasing(rows, k - 1, k - 1);
    var s := StackBefore(rows, k);
    forall i, j | 0 <= i < j < |s|
      ensures s[i] > s[j]
    {
      if j >= |anc| {
        assert s[j] == rows[k - 1].right && s[i] == anc[i] && anc[i] in anc;
      } else {
        assert s[j] == anc[j] && s[i] == anc[i];
      }
    }
    forall x | x in anc
      ensures x != rows[k].left
    {
      AncElements(rows, k - 1, k - 1, x);
      var i :| 0 <= i < k - 1 && rows[i].right == x && Encloses(rows[i], rows[k - 1]);
      assert Encloses(rows[i], rows[k]) || rows[i].right < rows[k].left;
    }
    assert Encloses(rows[k - 1], rows[k]) || rows[k - 1].right < rows[k].left;
  }

  /** In a strictly decreasing sequence without `v`, the elements above `v`
      form a prefix and the rest lie below `v`. */
  lemma {:induction false} AbovePrefix(s: seq<int>, v: int)
    requires Decreasing(s) && v !in s
    ensures Above(s, v) == s[..|Above(s, v)|]
    ensures forall i :: 0 <= i < |Above(s, v)| ==> s[i] > v
    ensures forall i :: |Above(s, v)| <= i < |s| ==> s[i] < v
    decreases |s|
  {
    if s != [] {
      var init, last := s[..|s| - 1], s[|s| - 1];
      assert Decreasing(init);
      AbovePrefix(init, v);
      var a := Above(init, v);
      assert s == init + [last];
      if last > v {
        // every entry is above `last` or is `last`, hence above `v`
        assert forall i :: 0 <= i < |s| ==> s[i] > v by {
          forall i | 0 <= i < |s| - 1
            ensures s[i] > v
          {
            assert s[i] > last;
          }
        }
        AboveAll(s, v);
      } else {
        assert Above(s, v) == a;
        assert a == s[..|a|];
      }
    }
  }

  /** When every element of `s` is above `v`, nothing is filtered out. */
  lemma {:induction false} AboveAll(s: seq<int>, v: int)
    requires forall i :: 0 <= i < |s| ==> s[i] > v
    ensures Above(s, v) == s
    decreases |s|
  {
    if s != [] {
      AboveAll(s[..|s| - 1], v);
    }
  }

  /** The outermost ancestor of any row after the first is the first row,
      when the first row encloses all the others. */
  lemma {:induction false} AncFirst(rows: seq<Task>, j: nat, n: nat)
    requires 1 <= n <= j < |rows| && Encloses(rows[0], rows[j])
    ensures |Anc(rows, j, n)| >= 1 && Anc(rows, j, n)[0] == rows[0].right
  {
    if n > 1 {
      AncFirst(rows, j, n - 1);
    }
  }

  /** Every row after the first has an ancestor, so the stack is never
      popped empty. */
  lemma AncestorsNonEmpty(rows: seq<Task>, k: nat)
    requires 1 <= k < |rows| && Encloses(rows[0], rows[k])
    ensures |Ancestors(rows, k)| >= 1 && Ancestors(rows, k)[0] == rows[0].right
  {
    AncFirst(rows, k, k);
  }

  // ---------------------------------------------------------------------------
  // The printing loop

  /** The loop of `task list` over the rows after the first: pop the
      ancestors the row lies beyond, print one indent per pair of adjacent
      stack entries, the glyph and the row, and push the row when it has
      children. */
  method Draw(rows: seq<Task>, ids: seq<string>) returns (lines: seq<Line>)
    requires 1 <= |rows| == |ids| && Layered(rows)
    requires forall k :: 1 <= k < |rows| ==> Encloses(rows[0], rows[k])
    ensures lines == Lines(rows, ids)
  {
    var stack := [rows[0].right];
    lines := [];
    var k := 1;
    while k < |rows|
      invariant 1 <= k <= |rows|
      invariant stack == StackBefore(rows, k)
      invariant |lines| == k - 1
      invariant forall j :: 1 <= j < k ==> lines[j - 1] == LineOf(rows, ids, j)
    {
      var task := rows[k];
      DrawStep(rows, ids, k);
      stack := PopBelow(stack, task.left);
      var indent := IndentsOf(stack);
      var glyph := if task.right == stack[|stack| - 1] - 1 then Last else Branch;
      var line := Line(indent, glyph, Short(ids[k]), task.name);
      DrawnLines(rows, ids, lines, line, k);
      lines := lines + [line];
      if task.right - task.left > 1 {
        stack := stack + [task.right];
      }
      k := k + 1;
    }
  }

  /** Appending the line of row `k` to the lines of the rows before it
      gives the lines of the rows up to `k`. */
  lemma DrawnLines(rows: seq<Task>, ids: seq<string>, lines: seq<Line>, line: Line, k: nat)
    requires 1 <= k < |rows| == |ids| && |lines| == k - 1
    requires forall j :: 1 <= j < k ==> lines[j - 1] == LineOf(rows, ids, j)
    requires line == LineOf(rows, ids, k)
    ensures forall j :: 1 <= j < k + 1 ==> (lines + [line])[j - 1] == LineOf(rows, ids, j)
  {
  }

  /** One turn of the loop: the pops of row `k` leave its ancestors (never
      all of the stack), its line is drawn from them, and the stack the next
      row finds is those ancestors and, when it has children, row `k`. */
  lemma DrawStep(rows: seq<Task>, ids: seq<string>, k: nat)
    requires 1 <= |rows| == |ids| && Layered(rows) && 1 <= k < |rows|
    requires forall j :: 1 <= j < |rows| ==> Encloses(rows[0], rows[j])
    ensures var s, a := StackBefore(rows, k), Ancestors(rows, k);
      && Decreasing(s) && rows[k].left !in s
      && Above(s, rows[k].left) == a && |a| >= 1
      && LineOf(rows, ids, k) == Line(Indents(a), if rows[k].right == a[|a| - 1] - 1 then Last else Branch, Short(ids[k]), rows[k].name)
      && (k + 1 <= |rows| ==> StackBefore(rows, k + 1) == a + (if rows[k].right - rows[k].left > 1 then [rows[k].right] else []))
  {
    StackDecreasing(rows, k);
    StackAbove(rows, k);
    AncestorsNonEmpty(rows, k);
  }

  /** `while task.left > *stack.last().unwrap() { stack.pop(); }`: on a
      strictly decreasing stack some entry of which lies above `v`, the
      pops leave exactly the entries above `v`. */
  method PopBelow(stack: seq<int>, v: int) returns (s: seq<int>)
    requires Decreasing(stack) && v !in stack && |Above(stack, v)| >= 1
    ensures s == Above(stack, v)
  {
    AbovePrefix(stack, v);
    s := stack;
    while v > s[|s| - 1]
      invariant |Above(stack, v)| <= |s| <= |stack| && s == stack[..|s|]
      decreases |s|
    {
      s := s[..|s| - 1];
    }
  }

  /** The peeking loop over the stack: an indent for each entry that has a
      next one, blank when the next ends just inside it. */
  method IndentsOf(stack: seq<int>) returns (indent: seq<Indent>)
    requires |stack| >= 1
    ensures indent == Indents(stack)
  {
    indent := [];
    var i := 0;
    while i < |stack|
      invariant 0 <= i <= |stack|
      invariant |indent| == if i < |stack| then i else |stack| - 1
      invariant forall j :: 0 <= j < |indent| ==>
        indent[j] == if stack[j + 1] == stack[j] - 1 then Blank else Bar
    {
      if i + 1 < |stack| {
        indent := indent + [if stack[i + 1] == stack[i] - 1 then Blank else Bar];
      }
      i := i + 1;
    }
  }

  /** The `Last` glyph marks the last child: every later row that starts
      inside the task's parent (its innermost ancestor) lies inside the task. */
  lemma LastGlyph(rows: seq<Task>, ids: seq<string>, k: nat, j: nat)
    requires 1 <= |rows| == |ids| && Layered(rows) && 1 <= k < j < |rows|
    requires LineOf(rows, ids, k).glyph == Last
    ensures var a := Ancestors(rows, k); |a| > 0 && (rows[j].left < a[|a| - 1] ==> Encloses(rows[k], rows[j]))
  {
    assert Encloses(rows[k], rows[j]) || rows[k].right < rows[j].left;
  }

  // ---------------------------------------------------------------------------
  // The rows of a tree in ascending left order

  /** `ids` are the rows of `tree`, each once, in ascending left order: what
      `SELECT ... WHERE tree_name = ? ORDER BY "left" ASC` returns. */
  ghost predicate ByLeft(tasks: map<string, Task>, tree: string, ids: seq<string>) {
    && (forall i :: 0 <= i < |ids| ==> ids[i] in tasks && tasks[ids[i]].tree == tree)
    && (forall id :: id in tasks && tasks[id].tree == tree ==> id in ids)
    && (forall i, j :: 0 <= i < j < |ids| ==> tasks[ids[i]].left < tasks[ids[j]].left)
  }

  /** The listing query: the tree's rows sorted by left. */
  method SelectByLeft(tasks: map<string, Task>, tree: string) returns (ids: seq<string>)
    requires WellNested(tasks)
    ensures ByLeft(tasks, tree, ids)
  {
    var rows := set x | x in tasks && tasks[x].tree == tree;
    var le := (a: string, b: string) => a in tasks && b in tasks && tasks[a].left <= tasks[b].left;
    assert TotalPreorderOn(rows, le);
    ids := OrderBy(rows, le);
    forall i | 0 <= i < |ids|
      ensures ids[i] in tasks && tasks[ids[i]].tree == tree
    {
      assert ids[i] in rows;
    }
    forall i, j | 0 <= i < j < |ids|
      ensures tasks[ids[i]].left < tasks[ids[j]].left
    {
      assert le(ids[i], ids[j]) && ids[i] in rows && ids[j] in rows;
      DistinctBoundaries(tasks, ids[i], ids[j]);
    }
  }

  /** The rows the ids name. */
  function RowsOf(tasks: map<string, Task>, ids: seq<string>): (r: seq<Task>)
    requires forall i :: 0 <= i < |ids| ==> ids[i] in tasks
    ensures |r| == |ids| && forall i :: 0 <= i < |ids| ==> r[i] == tasks[ids[i]]
  {
    seq(|ids|, i requires 0 <= i < |ids| => tasks[ids[i]])
  }

  /** The rows of a tree in left order are layered, and the first of them is
      the root, which encloses all the others. */
  lemma LayeredRows(tasks: map<string, Task>, tree: string, ids: seq<string>, root: string)
    requires WellNested(tasks) && ByLeft(tasks, tree, ids)
    requires root in tasks && tasks[root].tree == tree && tasks[root].left == 1
    ensures |ids| >= 1 && ids[0] == root
    ensures var rows := RowsOf(tasks, ids);
      && Layered(rows)
      && forall k :: 1 <= k < |rows| ==> Encloses(rows[0], rows[k])
  {
    var rows := RowsOf(tasks, ids);
    assert root in ids;
    var r :| 0 <= r < |ids| && ids[r] == root;
    assert tasks[ids[0]].left >= 1;
    forall i, j | 0 <= i < j < |rows|
      ensures Encloses(rows[i], rows[j]) || rows[i].right < rows[j].left
    {
      Pair(tasks, ids[i], ids[j]);
    }
    forall k | 1 <= k < |rows|
      ensures Encloses(rows[0], rows[k])
    {
      Pair(tasks, ids[0], ids[k]);
    }
  }

  /** In left order, a row's index is the number of rows of the tree that
      start before it. */
  lemma ByLeftRank(tasks: map<string, Task>, tree: string, ids: seq<string>, i: nat)
    requires ByLeft(tasks, tree, ids) && i < |ids|
    ensures |set x | x in tasks && tasks[x].tree == tree && tasks[x].left < tasks[ids[i]].left| == i
  {
    var before := set x | x in tasks && tasks[x].tree == tree && tasks[x].left < tasks[ids[i]].left;
    var prefix := set j | 0 <= j < i :: ids[j];
    forall x | x in before
      ensures x in prefix
    {
      assert x in ids;
      var j :| 0 <= j < |ids| && ids[j] == x;
      assert j < i;
    }
    assert Distinct(ids);
    DistinctPrefixCard(ids, i);
    assert before == prefix;
  }

  /** The left order of a tree's rows is unique. */
  lemma ByLeftUnique(tasks: map<string, Task>, tree: string, a: seq<string>, b: seq<string>)
    requires ByLeft(tasks, tree, a) && ByLeft(tasks, tree, b)
    ensures a == b
  {
    forall i | 0 <= i < |a|
      ensures i < |b| && a[i] == b[i]
    {
      assert a[i] in b;
      var j :| 0 <= j < |b| && b[j] == a[i];
      ByLeftRank(tasks, tree, a, i);
      ByLeftRank(tasks, tree, b, j);
    }
    forall j | 0 <= j < |b|
      ensures j < |a| && b[j] in a
    {
      assert b[j] in a;
      var i :| 0 <= i < |a| && a[i] == b[j];
      ByLeftRank(tasks, tree, a, i);
      ByLeftRank(tasks, tree, b, j);
    }
    if |a| > 0 {
      var last := a[|a| - 1];
      assert |a| - 1 < |b|;
    }
    if |b| > 0 {
      assert b[|b| - 1] in a;
    }
    assert |a| == |b|;
  }
}
