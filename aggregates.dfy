/**
 * The pandas aggregates the statistics use, stated over sequences: boolean-mask
 * selection, occurrence counts, `value_counts`, `mode()[0]`, `min`, `max` and
 * `sum`.
 */
module Aggregates {
  import opened Wrappers
  import Text

  // ---------------------------------------------------------------- orders

  ghost predicate StrictTotalOrder<T(!new)>(lt: (T, T) -> bool)
  {
    && (forall a :: !lt(a, a))
    && (forall a, b, c :: lt(a, b) && lt(b, c) ==> lt(a, c))
    && (forall a, b :: a != b ==> lt(a, b) || lt(b, a))
  }

  function IntLess(a: int, b: int): bool
  {
    a < b
  }

  lemma IntLessOrder()
    ensures StrictTotalOrder(IntLess)
  {
  }

  /** Python's string comparison is a strict total order. */
  lemma StringLessOrder()
    ensures StrictTotalOrder(Text.Less)
  {
    forall a: string
      ensures !Text.Less(a, a)
    {
      Text.LessIrreflexive(a);
    }
    forall a: string, b: string, c: string | Text.Less(a, b) && Text.Less(b, c)
      ensures Text.Less(a, c)
    {
      Text.LessTransitive(a, b, c);
    }
    forall a: string, b: string | a != b
      ensures Text.Less(a, b) || Text.Less(b, a)
    {
      Text.LessTotal(a, b);
    }
  }

  // ---------------------------------------------------------------- masks

  /** Boolean-mask selection `s[keep(s)]`: the elements that pass, in their order. */
  function Where<T>(s: seq<T>, keep: T -> bool): (r: seq<T>)
    ensures |r| <= |s|
    ensures forall x :: x in r ==> x in s && keep(x)
    decreases |s|
  {
    if |s| == 0 then []
    else (if keep(s[0]) then [s[0]] else []) + Where(s[1..], keep)
  }

  /** The passing positions of `s`, in increasing order, are `idx`. */
  ghost predicate SelectsPositions<T>(s: seq<T>, keep: T -> bool, r: seq<T>, idx: seq<nat>)
  {
    && |idx| == |r|
    && (forall k :: 0 <= k < |idx| ==> idx[k] < |s| && r[k] == s[idx[k]])
    && (forall k, l :: 0 <= k < l < |idx| ==> idx[k] < idx[l])
    && (forall j :: 0 <= j < |s| ==> (keep(s[j]) <==> j in idx))
  }

  /**
   * The selection is exactly the passing positions in increasing order: an
   * order-preserving subsequence that drops no element that passes.
   */
  lemma {:induction false} WhereIndices<T>(s: seq<T>, keep: T -> bool) returns (idx: seq<nat>)
    ensures SelectsPositions(s, keep, Where(s, keep), idx)
    decreases |s|
  {
    if |s| == 0 {
      idx := [];
    } else {
      var rest := WhereIndices(s[1..], keep);
      var tail := Where(s[1..], keep);
      ShiftPositions(s, keep, tail, rest);
      if keep(s[0]) {
        assert Where(s, keep) == [s[0]] + tail;
        idx := PrependFirst(s, keep, tail, Shift(rest));
      } else {
        assert Where(s, keep) == tail;
        idx := Shift(rest);
      }
    }
  }

  /** The selection of `s` when its first element passes. */
  lemma PrependFirst<T>(s: seq<T>, keep: T -> bool, tail: seq<T>, shifted: seq<nat>) returns (idx: seq<nat>)
    requires |s| > 0 && keep(s[0]) && |shifted| == |tail|
    requires forall k :: 0 <= k < |shifted| ==> 0 < shifted[k] < |s| && tail[k] == s[shifted[k]]
    requires forall k, l :: 0 <= k < l < |shifted| ==> shifted[k] < shifted[l]
    requires forall j :: 0 <= j < |s| ==> (j in shifted <==> j > 0 && keep(s[j]))
    ensures SelectsPositions(s, keep, [s[0]] + tail, idx)
  {
    idx := [0] + shifted;
    var r := [s[0]] + tail;
    forall k | 0 <= k < |idx|
      ensures idx[k] < |s| && r[k] == s[idx[k]]
    {
      if k > 0 {
        assert idx[k] == shifted[k - 1] && r[k] == tail[k - 1];
      }
    }
    forall k, l | 0 <= k < l < |idx|
      ensures idx[k] < idx[l]
    {
      assert idx[l] == shifted[l - 1];
      if k > 0 {
        assert idx[k] == shifted[k - 1];
      }
    }
    forall j | 0 <= j < |s|
      ensures keep(s[j]) <==> j in idx
    {
      assert j in idx <==> j == 0 || j in shifted;
    }
  }

  /** Every position moved one place to the right. */
  function Shift(idx: seq<nat>): (r: seq<nat>)
    ensures |r| == |idx|
    ensures forall k :: 0 <= k < |r| ==> r[k] == idx[k] + 1
  {
    seq(|idx|, k requires 0 <= k < |idx| => idx[k] + 1)
  }

  lemma ShiftMembership(idx: seq<nat>, j: nat)
    ensures j in Shift(idx) <==> j > 0 && j - 1 in idx
  {
    if j > 0 && j - 1 in idx {
      var k :| 0 <= k < |idx| && idx[k] == j - 1;
      assert Shift(idx)[k] == j;
    }
  }

  /** Positions in `s[1..]` moved to positions in `s`. */
  lemma ShiftPositions<T>(s: seq<T>, keep: T -> bool, tail: seq<T>, rest: seq<nat>)
    requires |s| > 0
    requires SelectsPositions(s[1..], keep, tail, rest)
    ensures forall k :: 0 <= k < |rest| ==> 0 < Shift(rest)[k] < |s| && tail[k] == s[Shift(rest)[k]]
    ensures forall k, l :: 0 <= k < l < |rest| ==> Shift(rest)[k] < Shift(rest)[l]
    ensures forall j :: 0 <= j < |s| ==> (j in Shift(rest) <==> j > 0 && keep(s[j]))
  {
    forall k | 0 <= k < |rest|
      ensures 0 < Shift(rest)[k] < |s| && tail[k] == s[Shift(rest)[k]]
    {
      assert s[1..][rest[k]] == s[rest[k] + 1];
    }
    forall j | 0 <= j < |s|
      ensures j in Shift(rest) <==> j > 0 && keep(s[j])
    {
      ShiftMembership(rest, j);
      if j > 0 {
        assert s[j] == s[1..][j - 1];
      }
    }
  }

  /** Two masks applied one after the other are one mask testing both. */
  lemma {:induction false} WhereWhere<T>(s: seq<T>, p: T -> bool, q: T -> bool, both: T -> bool)
    requires forall i :: 0 <= i < |s| ==> both(s[i]) == (p(s[i]) && q(s[i]))
    ensures Where(Where(s, p), q) == Where(s, both)
    decreases |s|
  {
    if |s| > 0 {
      WhereWhere(s[1..], p, q, both);
      var head := if p(s[0]) then [s[0]] else [];
      assert Where(s, p) == head + Where(s[1..], p);
      WhereAppend(head, Where(s[1..], p), q);
    }
  }

  lemma {:induction false} WhereAppend<T>(a: seq<T>, b: seq<T>, keep: T -> bool)
    ensures Where(a + b, keep) == Where(a, keep) + Where(b, keep)
    decreases |a|
  {
    if |a| > 0 {
      assert (a + b)[0] == a[0];
      assert (a + b)[1..] == a[1..] + b;
      WhereAppend(a[1..], b, keep);
    } else {
      assert a + b == b;
    }
  }

  /** Masks that agree on every element select the same elements. */
  lemma {:induction false} WhereAgree<T>(s: seq<T>, p: T -> bool, q: T -> bool)
    requires forall i :: 0 <= i < |s| ==> p(s[i]) == q(s[i])
    ensures Where(s, p) == Where(s, q)
    decreases |s|
  {
    if |s| > 0 {
      WhereAgree(s[1..], p, q);
    }
  }

  /** A mask every element passes selects everything. */
  lemma {:induction false} WhereAll<T>(s: seq<T>, keep: T -> bool)
    requires forall i :: 0 <= i < |s| ==> keep(s[i])
    ensures Where(s, keep) == s
    decreases |s|
  {
    if |s| > 0 {
      WhereAll(s[1..], keep);
    }
  }

  // ---------------------------------------------------------------- counts

  /** Number of occurrences of `x` in `s`. */
  function Count<T(==)>(s: seq<T>, x: T): (n: nat)
    ensures n <= |s|
    ensures n > 0 <==> x in s
    decreases |s|
  {
    if |s| == 0 then 0 else (if s[0] == x then 1 else 0) + Count(s[1..], x)
  }

  ghost predicate NoDuplicates<T>(s: seq<T>)
  {
    forall i, j :: 0 <= i < j < |s| ==> s[i] != s[j]
  }

  /** The distinct values of `s`. */
  function Distinct<T(==)>(s: seq<T>): (d: seq<T>)
    ensures forall x :: x in d ==> x in s
    ensures forall i :: 0 <= i < |s| ==> s[i] in d
    ensures NoDuplicates(d)
    decreases |s|
  {
    if |s| == 0 then []
    else if s[0] in s[1..] then Distinct(s[1..])
    else [s[0]] + Distinct(s[1..])
  }

  /** The keys of a table of counts. */
  function Keys<T>(vc: seq<(T, nat)>): (ks: seq<T>)
    ensures |ks| == |vc|
    ensures forall i :: 0 <= i < |vc| ==> ks[i] == vc[i].0
    decreases |vc|
  {
    if |vc| == 0 then [] else [vc[0].0] + Keys(vc[1..])
  }

  /** The sum of the counts of a table of counts. */
  function Total<T>(vc: seq<(T, nat)>): nat
    decreases |vc|
  {
    if |vc| == 0 then 0 else vc[0].1 + Total(vc[1..])
  }

  function Tally<T(==)>(keys: seq<T>, s: seq<T>): (vc: seq<(T, nat)>)
    ensures Keys(vc) == keys
    ensures forall i :: 0 <= i < |vc| ==> vc[i].1 == Count(s, vc[i].0)
    decreases |keys|
  {
    if |keys| == 0 then [] else [(keys[0], Count(s, keys[0]))] + Tally(keys[1..], s)
  }

  lemma {:induction false} TallyPrepend<T>(keys: seq<T>, x: T, t: seq<T>)
    ensures Total(Tally(keys, [x] + t)) == Total(Tally(keys, t)) + Count(keys, x)
    decreases |keys|
  {
    if |keys| > 0 {
      assert ([x] + t)[1..] == t;
      TallyPrepend(keys[1..], x, t);
    }
  }

  lemma {:induction false} CountNoDuplicates<T>(d: seq<T>, x: T)
    requires NoDuplicates(d)
    ensures Count(d, x) == if x in d then 1 else 0
    decreases |d|
  {
    if |d| > 0 {
      CountNoDuplicates(d[1..], x);
      forall j | 0 <= j < |d[1..]|
        ensures d[1..][j] != d[0]
      {
        assert d[1..][j] == d[j + 1];
      }
    }
  }

  lemma {:induction false} TallyDistinctTotal<T>(s: seq<T>)
    ensures Total(Tally(Distinct(s), s)) == |s|
    decreases |s|
  {
    if |s| > 0 {
      var t := s[1..];
      assert s == [s[0]] + t;
      TallyDistinctTotal(t);
      TallyPrepend(Distinct(t), s[0], t);
      CountNoDuplicates(Distinct(t), s[0]);
      if s[0] !in t {
        assert Count(s, s[0]) == 1;
      }
    }
  }

  /**
   * `vc` is a table of the counts of `s`: one entry per distinct value of `s`
   * and no other, each holding the value's (positive) number of occurrences,
   * the counts adding up to `|s|`.
   */
  ghost predicate IsValueCounts<T>(vc: seq<(T, nat)>, s: seq<T>)
  {
    && (forall x :: x in Keys(vc) ==> x in s)
    && (forall i :: 0 <= i < |s| ==> s[i] in Keys(vc))
    && NoDuplicates(Keys(vc))
    && (forall i :: 0 <= i < |vc| ==> vc[i].1 == Count(s, vc[i].0) && vc[i].1 > 0)
    && Total(vc) == |s|
  }

  /** `value_counts()`. */
  function ValueCounts<T(==)>(s: seq<T>): (vc: seq<(T, nat)>)
    ensures IsValueCounts(vc, s)
  {
    TallyDistinctTotal(s);
    Tally(Distinct(s), s)
  }

  // ---------------------------------------------------------------- mode

  /**
   * `m` is what `mode()[0]` returns: a value of `s` that no value outnumbers,
   * and the smallest under `lt` of those that occur equally often.
   */
  ghost predicate IsMode<T>(s: seq<T>, m: T, lt: (T, T) -> bool)
  {
    && m in s
    && (forall i :: 0 <= i < |s| ==> Count(s, s[i]) <= Count(s, m))
    && (forall y :: y in s && y != m && Count(s, y) == Count(s, m) ==> lt(m, y))
  }

  /** The best candidate of `c` by number of occurrences in `s`, smaller on a tie. */
  function Best<T(==,!new)>(c: seq<T>, s: seq<T>, lt: (T, T) -> bool): (b: T)
    requires |c| > 0
    requires StrictTotalOrder(lt)
    ensures b in c
    ensures forall y :: y in c ==> Count(s, y) <= Count(s, b)
    ensures forall y :: y in c && Count(s, y) == Count(s, b) ==> !lt(y, b)
    decreases |c|
  {
    if |c| == 1 then c[0]
    else
      var rest := Best(c[1..], s, lt);
      assert forall y :: y in c ==> y == c[0] || y in c[1..];
      if Count(s, c[0]) > Count(s, rest) || (Count(s, c[0]) == Count(s, rest) && lt(c[0], rest))
      then c[0]
      else rest
  }

  /** `mode()[0]`, which has no value on an empty column. */
  function Mode<T(==,!new)>(s: seq<T>, lt: (T, T) -> bool): (m: Option<T>)
    requires StrictTotalOrder(lt)
    ensures m.None? <==> |s| == 0
    ensures m.Some? ==> IsMode(s, m.value, lt)
  {
    if |s| == 0 then None else Some(Best(s, s, lt))
  }

  /** Under a strict total order there is only one mode. */
  lemma ModeUnique<T(!new)>(s: seq<T>, m1: T, m2: T, lt: (T, T) -> bool)
    requires StrictTotalOrder(lt)
    requires IsMode(s, m1, lt) && IsMode(s, m2, lt)
    ensures m1 == m2
  {
    var i1 :| 0 <= i1 < |s| && s[i1] == m1;
    var i2 :| 0 <= i2 < |s| && s[i2] == m2;
    assert Count(s, s[i1]) <= Count(s, m2) && Count(s, s[i2]) <= Count(s, m1);
    assert m1 != m2 ==> lt(m1, m2) && lt(m2, m1);
  }

  // ---------------------------------------------------------------- min, max, sum

  function Min(s: seq<int>): (m: int)
    requires |s| > 0
    ensures m in s
    ensures forall y :: y in s ==> m <= y
    decreases |s|
  {
    if |s| == 1 then s[0]
    else
      var rest := Min(s[1..]);
      assert forall y :: y in s ==> y == s[0] || y in s[1..];
      if s[0] <= rest then s[0] else rest
  }

  function Max(s: seq<int>): (m: int)
    requires |s| > 0
    ensures m in s
    ensures forall y :: y in s ==> y <= m
    decreases |s|
  {
    if |s| == 1 then s[0]
    else
      var rest := Max(s[1..]);
      assert forall y :: y in s ==> y == s[0] || y in s[1..];
      if s[0] >= rest then s[0] else rest
  }

  function Sum(s: seq<nat>): nat
    decreases |s|
  {
    if |s| == 0 then 0 else s[0] + Sum(s[1..])
  }

  lemma {:induction false} SumAppend(a: seq<nat>, b: seq<nat>)
    ensures Sum(a + b) == Sum(a) + Sum(b)
    decreases |a|
  {
    if |a| > 0 {
      assert (a + b)[0] == a[0];
      assert (a + b)[1..] == a[1..] + b;
      SumAppend(a[1..], b);
    } else {
      assert a + b == b;
    }
  }

  /** Every element is at most the sum. */
  lemma {:induction false} SumBoundsElements(s: seq<nat>)
    ensures forall i :: 0 <= i < |s| ==> s[i] <= Sum(s)
    decreases |s|
  {
    if |s| > 0 {
      SumBoundsElements(s[1..]);
      assert forall i :: 1 <= i < |s| ==> s[i] == s[1..][i - 1];
    }
  }

  /**
   * The present values of an optional column, in order: missing values are
   * skipped and every present value is kept as often as it occurs.
   */
  function Present<T(==,!new)>(s: seq<Option<T>>): (r: seq<T>)
    ensures |r| <= |s|
    ensures forall x :: x in r ==> Some(x) in s
    ensures forall i :: 0 <= i < |s| && s[i].Some? ==> s[i].value in r
    ensures forall x :: Count(r, x) == Count(s, Some(x))
    decreases |s|
  {
    if |s| == 0 then []
    else if s[0].Some? then
      var rest := Present(s[1..]);
      assert ([s[0].value] + rest)[1..] == rest;
      [s[0].value] + rest
    else Present(s[1..])
  }

  /** With no missing value, nothing is skipped: position by position, the values. */
  lemma {:induction false} PresentComplete<T(!new)>(s: seq<Option<T>>)
    requires forall i :: 0 <= i < |s| ==> s[i].Some?
    ensures |Present(s)| == |s|
    ensures forall i :: 0 <= i < |s| ==> Present(s)[i] == s[i].value
    decreases |s|
  {
    if |s| > 0 {
      PresentComplete(s[1..]);
      assert Present(s) == [s[0].value] + Present(s[1..]);
      assert forall i :: 1 <= i < |s| ==> s[i] == s[1..][i - 1];
    }
  }
}
