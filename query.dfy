/** The `ORDER BY` of the store's queries and the lexicographic order of text
    columns. */
module Query {

  /** `le` is a total preorder on `rows`: the order an `ORDER BY` key induces. */
  ghost predicate TotalPreorderOn<T(!new)>(rows: set<T>, le: (T, T) -> bool) {
    && (forall a, b :: a in rows && b in rows ==> le(a, b) || le(b, a))
    && (forall a, b, c :: a in rows && b in rows && c in rows && le(a, b) && le(b, c) ==> le(a, c))
  }

  /** `s` is in `le` order. */
  predicate SortedBy<T>(s: seq<T>, le: (T, T) -> bool) {
    forall i, j :: 0 <= i < j < |s| ==> le(s[i], s[j])
  }

  /** No row occurs twice in `s`. */
  predicate Distinct<T(==)>(s: seq<T>) {
    forall i, j :: 0 <= i < j < |s| ==> s[i] != s[j]
  }

  /** `x` is a least element of `rows`. */
  predicate IsLeast<T(==)>(x: T, rows: set<T>, le: (T, T) -> bool) {
    x in rows && forall y :: y in rows ==> le(x, y)
  }

  /** Every non-empty finite set has a least element under a total preorder. */
  lemma {:induction false} LeastExists<T(!new)>(rows: set<T>, le: (T, T) -> bool)
    requires rows != {} && TotalPreorderOn(rows, le)
    ensures exists x :: IsLeast(x, rows, le)
    decreases |rows|
  {
    var a :| a in rows;
    if rows == {a} {
      assert le(a, a);
      assert IsLeast(a, rows, le);
    } else {
      var rest := rows - {a};
      assert TotalPreorderOn(rest, le);
      LeastExists(rest, le);
      var b :| IsLeast(b, rest, le);
      if le(a, b) {
        assert IsLeast(a, rows, le);
      } else {
        assert IsLeast(b, rows, le);
      }
    }
  }

  /** `ORDER BY`: the rows in `le` order, each once. The order among rows
      with equal keys is left open, as SQL leaves it. */
  method OrderBy<T(==,!new)>(rows: set<T>, le: (T, T) -> bool) returns (sorted: seq<T>)
    requires TotalPreorderOn(rows, le)
    ensures SortedBy(sorted, le) && Distinct(sorted)
    ensures forall x :: x in sorted <==> x in rows
    ensures |sorted| == |rows|
  {
    sorted := [];
    var rest := rows;
    while rest != {}
      invariant rest <= rows
      invariant forall x :: x in rows <==> x in sorted || x in rest
      invariant forall x :: x in sorted ==> x !in rest
      invariant SortedBy(sorted, le) && Distinct(sorted)
      invariant forall i, y :: 0 <= i < |sorted| && y in rest ==> le(sorted[i], y)
      invariant |sorted| + |rest| == |rows|
      decreases |rest|
    {
      assert TotalPreorderOn(rest, le);
      LeastExists(rest, le);
      var x :| IsLeast(x, rest, le);
      sorted := sorted + [x];
      rest := rest - {x};
    }
  }

  /** A set of one element is that element's singleton. */
  lemma Singleton<T>(s: set<T>)
    requires |s| == 1
    ensures exists x :: s == {x}
  {
    var x :| x in s;
    assert |s - {x}| == 0;
    assert s == {x};
  }

  /** The first `k` rows of a sequence without repetition are `k` rows. */
  lemma {:induction false} DistinctPrefixCard<T>(s: seq<T>, k: nat)
    requires k <= |s| && Distinct(s)
    ensures |set i | 0 <= i < k :: s[i]| == k
  {
    if k > 0 {
      DistinctPrefixCard(s, k - 1);
      var prev := set i | 0 <= i < k - 1 :: s[i];
      assert s[k - 1] !in prev;
      assert (set i | 0 <= i < k :: s[i]) == prev + {s[k - 1]};
    }
  }

  // ---------------------------------------------------------------------------
  // Text order

  /** `a` sorts strictly before `b` character by character, a proper prefix
      first: the byte order the store compares text columns in. */
  predicate StrLt(a: string, b: string)
    decreases |a|
  {
    |b| > 0 && (|a| == 0 || a[0] < b[0] || (a[0] == b[0] && StrLt(a[1..], b[1..])))
  }

  /** `a` sorts at or before `b`. */
  predicate StrLe(a: string, b: string) {
    a == b || StrLt(a, b)
  }

  lemma {:induction false} StrLtIrreflexive(a: string)
    ensures !StrLt(a, a)
    decreases |a|
  {
    if |a| > 0 {
      StrLtIrreflexive(a[1..]);
    }
  }

  lemma {:induction false} StrLtTransitive(a: string, b: string, c: string)
    requires StrLt(a, b) && StrLt(b, c)
    ensures StrLt(a, c)
    decreases |a|
  {
    if |a| > 0 && a[0] == b[0] && b[0] == c[0] {
      StrLtTransitive(a[1..], b[1..], c[1..]);
    }
  }

  lemma {:induction false} StrLtTotal(a: string, b: string)
    ensures a == b || StrLt(a, b) || StrLt(b, a)
    decreases |a|
  {
    if |a| > 0 && |b| > 0 && a[0] == b[0] {
      StrLtTotal(a[1..], b[1..]);
      if a[1..] == b[1..] {
        assert a == [a[0]] + a[1..] && b == [b[0]] + b[1..];
      }
    }
  }
}
