/** Byte strings and the byte-lexicographic order that `bytes.Compare` defines. */
module Bytes {

  newtype byte = b: int | 0 <= b < 256

  /** Three-way byte-lexicographic comparison, as `bytes.Compare`: -1, 0 or +1.
      A strict prefix sorts before the longer string. */
  function Compare(a: seq<byte>, b: seq<byte>): (c: int)
    ensures -1 <= c <= 1
    ensures c == 0 <==> a == b
  {
    if |a| == 0 then (if |b| == 0 then 0 else -1)
    else if |b| == 0 then 1
    else if a[0] < b[0] then -1
    else if a[0] > b[0] then 1
    else
      var r := Compare(a[1..], b[1..]);
      assert a == [a[0]] + a[1..] && b == [b[0]] + b[1..];
      r
  }

  predicate Less(a: seq<byte>, b: seq<byte>) { Compare(a, b) < 0 }

  predicate LessEq(a: seq<byte>, b: seq<byte>) { Compare(a, b) <= 0 }

  /** Swapping the operands negates the comparison. */
  lemma {:induction false} CompareAntisymmetric(a: seq<byte>, b: seq<byte>)
    ensures Compare(b, a) == -Compare(a, b)
  {
    if |a| > 0 && |b| > 0 && a[0] == b[0] {
      CompareAntisymmetric(a[1..], b[1..]);
    }
  }

  /** The order is total: of two distinct strings, one is less than the other. */
  lemma LessTotal(a: seq<byte>, b: seq<byte>)
    ensures Less(a, b) || a == b || Less(b, a)
    ensures !Less(a, b) ==> LessEq(b, a)
  {
    CompareAntisymmetric(a, b);
  }

  lemma {:induction false} LessTransitive(a: seq<byte>, b: seq<byte>, c: seq<byte>)
    requires Less(a, b) && Less(b, c)
    ensures Less(a, c)
  {
    if |a| > 0 && a[0] == b[0] && b[0] == c[0] {
      LessTransitive(a[1..], b[1..], c[1..]);
    }
  }

  lemma LessEqLess(a: seq<byte>, b: seq<byte>, c: seq<byte>)
    requires LessEq(a, b) && Less(b, c)
    ensures Less(a, c)
  {
    if a != b { LessTransitive(a, b, c); }
  }

  lemma LessLessEq(a: seq<byte>, b: seq<byte>, c: seq<byte>)
    requires Less(a, b) && LessEq(b, c)
    ensures Less(a, c)
  {
    if b != c { LessTransitive(a, b, c); }
  }

  lemma LessEqTransitive(a: seq<byte>, b: seq<byte>, c: seq<byte>)
    requires LessEq(a, b) && LessEq(b, c)
    ensures LessEq(a, c)
  {
    if a != b && b != c { LessTransitive(a, b, c); }
  }

  /** `a` sorts before `b` because they agree on their first `k` bytes and then
      either `a` ends while `b` goes on, or `a`'s next byte is the smaller. */
  ghost predicate FirstDifference(a: seq<byte>, b: seq<byte>, k: nat)
  {
    && k <= |a| && k <= |b| && a[..k] == b[..k]
    && ((k == |a| && k < |b|) || (k < |a| && k < |b| && a[k] < b[k]))
  }

  /** `Less` agrees with the textbook definition of the lexicographic order. */
  lemma {:induction false} LessIsLexicographic(a: seq<byte>, b: seq<byte>)
    ensures Less(a, b) <==> exists k: nat :: FirstDifference(a, b, k)
  {
    if Less(a, b) {
      LessHasFirstDifference(a, b);
    }
    if k: nat :| FirstDifference(a, b, k) {
      FirstDifferenceIsLess(a, b, k);
    }
  }

  lemma {:induction false} LessHasFirstDifference(a: seq<byte>, b: seq<byte>)
    requires Less(a, b)
    ensures exists k: nat :: FirstDifference(a, b, k)
  {
    if |a| == 0 {
      assert FirstDifference(a, b, 0);
    } else if a[0] < b[0] {
      assert FirstDifference(a, b, 0);
    } else {
      LessHasFirstDifference(a[1..], b[1..]);
      var k: nat :| FirstDifference(a[1..], b[1..], k);
      assert a[..k + 1] == [a[0]] + a[1..][..k];
      assert b[..k + 1] == [b[0]] + b[1..][..k];
      assert FirstDifference(a, b, k + 1);
    }
  }

  lemma {:induction false} FirstDifferenceIsLess(a: seq<byte>, b: seq<byte>, k: nat)
    requires FirstDifference(a, b, k)
    ensures Less(a, b)
  {
    if k > 0 {
      assert a[0] == a[..k][0] == b[..k][0] == b[0];
      assert a[1..][..k - 1] == a[..k][1..] == b[..k][1..] == b[1..][..k - 1];
      FirstDifferenceIsLess(a[1..], b[1..], k - 1);
    }
  }

  /** A strict prefix sorts first. */
  lemma PrefixIsLess(a: seq<byte>, b: seq<byte>)
    requires |a| < |b| && a == b[..|a|]
    ensures Less(a, b)
  {
    FirstDifferenceIsLess(a, b, |a|);
  }
}
