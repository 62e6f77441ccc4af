/**
 * The two string operations the pipeline relies on: lower-casing (`str.lower()`)
 * of weekday names, and the ordering of strings under which pandas sorts the
 * candidates of a mode (Python compares strings by code point, a proper prefix
 * being smaller).
 */
module Text {

  /** Lower-casing of one character; only ASCII letters are changed. */
  function LowerChar(c: char): char
  {
    if 'A' <= c <= 'Z' then (c as int + ('a' as int - 'A' as int)) as char else c
  }

  function Lower(s: string): (l: string)
    ensures |l| == |s|
    ensures forall i :: 0 <= i < |s| ==> l[i] == LowerChar(s[i])
    decreases |s|
  {
    if |s| == 0 then "" else [LowerChar(s[0])] + Lower(s[1..])
  }

  /** Lower-casing twice is lower-casing once. */
  lemma LowerIdempotent(s: string)
    ensures Lower(Lower(s)) == Lower(s)
  {
    assert forall i :: 0 <= i < |s| ==> LowerChar(LowerChar(s[i])) == LowerChar(s[i]);
  }

  /** `a` is a proper prefix of `b`. */
  ghost predicate ProperPrefix(a: string, b: string)
  {
    |a| < |b| && a == b[..|a|]
  }

  /** `a` and `b` agree before position `k`, and there `a` has the smaller character. */
  ghost predicate SmallerAt(a: string, b: string, k: int)
  {
    0 <= k < |a| && k < |b| && a[..k] == b[..k] && a[k] < b[k]
  }

  /**
   * Python's `<` on `str`: lexicographic by code point. `a` is smaller when
   * it is a proper prefix of `b`, or when at the first position where they
   * differ its character is smaller.
   */
  function Less(a: string, b: string): (l: bool)
    ensures l <==> ProperPrefix(a, b) || exists k :: SmallerAt(a, b, k)
    decreases |a|
  {
    if |a| == 0 then |b| > 0
    else if |b| == 0 then false
    else if a[0] != b[0] then
      assert a[..0] == b[..0];
      assert forall k :: SmallerAt(a, b, k) ==> k == 0;
      assert a[0] < b[0] ==> SmallerAt(a, b, 0);
      a[0] < b[0]
    else
      PrefixStep(a, b);
      SmallerStep(a, b);
      Less(a[1..], b[1..])
  }

  /** With equal first characters, the prefix test moves one position on. */
  lemma PrefixStep(a: string, b: string)
    requires |a| > 0 && |b| > 0 && a[0] == b[0]
    ensures ProperPrefix(a, b) <==> ProperPrefix(a[1..], b[1..])
  {
    if ProperPrefix(a, b) {
      assert a[1..] == b[1..][..|a[1..]|];
    }
    if ProperPrefix(a[1..], b[1..]) {
      assert a == [a[0]] + a[1..] && b[..|a|] == [b[0]] + b[1..][..|a[1..]|];
    }
  }

  /** With equal first characters, the first difference moves one position on. */
  lemma SmallerStep(a: string, b: string)
    requires |a| > 0 && |b| > 0 && a[0] == b[0]
    ensures (exists k :: SmallerAt(a, b, k)) <==> (exists k :: SmallerAt(a[1..], b[1..], k))
  {
    if exists k :: SmallerAt(a, b, k) {
      var k :| SmallerAt(a, b, k);
      assert k > 0;
      assert a[1..][..k - 1] == a[..k][1..] && b[1..][..k - 1] == b[..k][1..];
      assert SmallerAt(a[1..], b[1..], k - 1);
    }
    if exists k :: SmallerAt(a[1..], b[1..], k) {
      var k :| SmallerAt(a[1..], b[1..], k);
      assert a[..k + 1] == [a[0]] + a[1..][..k] && b[..k + 1] == [b[0]] + b[1..][..k];
      assert SmallerAt(a, b, k + 1);
    }
  }

  lemma {:induction false} LessIrreflexive(a: string)
    ensures !Less(a, a)
    decreases |a|
  {
    if |a| > 0 {
      LessIrreflexive(a[1..]);
    }
  }

  lemma {:induction false} LessTransitive(a: string, b: string, c: string)
    requires Less(a, b) && Less(b, c)
    ensures Less(a, c)
    decreases |a|
  {
    if |a| > 0 && |b| > 0 && |c| > 0 && a[0] == b[0] && b[0] == c[0] {
      LessTransitive(a[1..], b[1..], c[1..]);
    }
  }

  lemma {:induction false} LessTotal(a: string, b: string)
    requires a != b
    ensures Less(a, b) || Less(b, a)
    decreases |a|
  {
    if |a| > 0 && |b| > 0 && a[0] == b[0] {
      assert a == [a[0]] + a[1..] && b == [b[0]] + b[1..];
      LessTotal(a[1..], b[1..]);
    }
  }
}
