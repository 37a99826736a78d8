/** The order list: a permutation of the ids 0..n-1, and what it means for it
    to list the entries in byte-lexicographic order. */
module Order {
  import opened Bytes

  /** The ids 0, 1, ..., n-1 in insertion order. */
  function Iota(n: nat): (r: seq<int>)
    ensures |r| == n
    ensures forall k :: 0 <= k < n ==> r[k] == k
  {
    if n == 0 then [] else Iota(n - 1) + [n - 1]
  }

  /** `ids` holds each of 0..n-1 exactly once. */
  ghost predicate IsPermutation(ids: seq<int>, n: nat)
  {
    multiset(ids) == multiset(Iota(n))
  }

  /** What a permutation of 0..n-1 gives a reader: its length, that every
      element is a valid id, and that every id occurs in it. */
  lemma PermutationMembers(ids: seq<int>, n: nat)
    requires IsPermutation(ids, n)
    ensures |ids| == n
    ensures forall i :: 0 <= i < |ids| ==> 0 <= ids[i] < n
    ensures forall k :: 0 <= k < n ==> k in ids
  {
    assert |ids| == |multiset(ids)| == |multiset(Iota(n))| == n;
    forall i | 0 <= i < |ids| ensures 0 <= ids[i] < n {
      assert ids[i] in multiset(Iota(n));
    }
    forall k | 0 <= k < n ensures k in ids {
      assert Iota(n)[k] == k;
      assert k in multiset(Iota(n));
    }
  }

  /** No id occurs twice in a permutation. */
  lemma {:induction false} PermutationDistinct(ids: seq<int>, n: nat)
    requires IsPermutation(ids, n)
    ensures forall i, j :: 0 <= i < j < |ids| ==> ids[i] != ids[j]
  {
    forall i, j | 0 <= i < j < |ids| ensures ids[i] != ids[j] {
      if ids[i] == ids[j] {
        var x := ids[i];
        assert ids == ids[..i] + [x] + ids[i + 1..j] + [x] + ids[j + 1..];
        assert multiset(ids)[x] >= 2;
        IotaOnce(n, x);
        assert false;
      }
    }
  }

  lemma {:induction false} IotaOnce(n: nat, x: int)
    ensures multiset(Iota(n))[x] <= 1
  {
    if n > 0 {
      IotaOnce(n - 1, x);
      assert multiset(Iota(n)) == multiset(Iota(n - 1)) + multiset{n - 1};
      if x == n - 1 {
        assert x !in Iota(n - 1);
      }
    }
  }

  /** Adding the next id at the end keeps the list a permutation. */
  lemma PermutationExtend(ids: seq<int>, n: nat)
    requires IsPermutation(ids, n)
    ensures IsPermutation(ids + [n], n + 1)
  {
  }

  /** Exchanging two elements changes no element's multiplicity. */
  lemma SwapPermutes(s: seq<int>, i: int, j: int)
    requires 0 <= i < |s| && 0 <= j < |s|
    ensures multiset(s[i := s[j]][j := s[i]]) == multiset(s)
  {
  }

  /** Every element of `ids` is an index of `es`. */
  ghost predicate InRange(ids: seq<int>, es: seq<seq<byte>>)
  {
    forall i :: 0 <= i < |ids| ==> 0 <= ids[i] < |es|
  }

  /** `ids` lists entries of `es` in non-decreasing byte-lexicographic order. */
  ghost predicate Sorted(ids: seq<int>, es: seq<seq<byte>>)
  {
    && InRange(ids, es)
    && (forall i, j :: 0 <= i < j < |ids| ==> LessEq(es[ids[i]], es[ids[j]]))
  }

  /** No two entries hold the same bytes. */
  ghost predicate Distinct(es: seq<seq<byte>>)
  {
    forall a, b :: 0 <= a < b < |es| ==> es[a] != es[b]
  }

  /** Adding bytes not yet stored keeps the entries distinct. */
  lemma DistinctExtend(es: seq<seq<byte>>, t: seq<byte>)
    requires Distinct(es) && t !in es
    ensures Distinct(es + [t])
  {
  }

  /** Every entry listed from position p on lies at or after entry ids[p]:
      text below ids[p] is below all of them. */
  lemma BelowFrom(ids: seq<int>, es: seq<seq<byte>>, t: seq<byte>, p: int)
    requires Sorted(ids, es) && 0 <= p < |ids| && Less(t, es[ids[p]])
    ensures forall k :: p <= k < |ids| ==> Less(t, es[ids[k]])
  {
    forall k | p <= k < |ids| ensures Less(t, es[ids[k]]) {
      if k > p { LessLessEq(t, es[ids[p]], es[ids[k]]); }
    }
  }

  /** Text above entry ids[p] is above every entry listed up to p. */
  lemma AboveUpTo(ids: seq<int>, es: seq<seq<byte>>, t: seq<byte>, p: int)
    requires Sorted(ids, es) && 0 <= p < |ids| && Less(es[ids[p]], t)
    ensures forall k :: 0 <= k <= p ==> Less(es[ids[k]], t)
  {
    forall k | 0 <= k <= p ensures Less(es[ids[k]], t) {
      if k < p { LessEqLess(es[ids[k]], es[ids[p]], t); }
    }
  }

  /** If the order list is split at i into entries below t and entries above t,
      then t is not stored at all. */
  lemma NotStored(ids: seq<int>, es: seq<seq<byte>>, t: seq<byte>, i: int)
    requires IsPermutation(ids, |es|) && InRange(ids, es) && 0 <= i <= |ids|
    requires forall k :: 0 <= k < i ==> Less(es[ids[k]], t)
    requires forall k :: i <= k < |ids| ==> Less(t, es[ids[k]])
    ensures t !in es
  {
    PermutationMembers(ids, |es|);
    forall x | 0 <= x < |es| ensures es[x] != t {
      assert x in ids;
      var p :| 0 <= p < |ids| && ids[p] == x;
      assert Less(es[x], t) || Less(t, es[x]);
    }
  }

  /** Go's built-in `copy(dst, src)`: the first min(|dst|, |src|) elements of
      dst are replaced by those of src; dst keeps its length. */
  function Copy(dst: seq<int>, src: seq<int>): (r: seq<int>)
    ensures |r| == |dst|
    ensures forall k :: 0 <= k < |dst| ==> r[k] == if k < |src| then src[k] else dst[k]
  {
    if |src| < |dst| then src + dst[|src|..] else src[..|dst|]
  }

  /** `s` with `x` inserted before position i. */
  function InsertAt(s: seq<int>, i: int, x: int): (r: seq<int>)
    requires 0 <= i <= |s|
    ensures |r| == |s| + 1 && r[i] == x
    ensures forall k :: 0 <= k < i ==> r[k] == s[k]
    ensures forall k :: i < k < |r| ==> r[k] == s[k - 1]
  {
    s[..i] + [x] + s[i..]
  }

  /** Inserting x adds exactly one x to the multiset of elements. */
  lemma InsertAtPermutes(s: seq<int>, i: int, x: int)
    requires 0 <= i <= |s|
    ensures multiset(InsertAt(s, i, x)) == multiset(s) + multiset{x}
  {
    assert s == s[..i] + s[i..];
  }

  /** Inserting the next id anywhere keeps the list a permutation. */
  lemma InsertNextId(s: seq<int>, n: nat, i: int)
    requires IsPermutation(s, n) && 0 <= i <= |s|
    ensures IsPermutation(InsertAt(s, i, n), n + 1)
  {
    InsertAtPermutes(s, i, n);
  }

  /** The shift of the insert path: on a list whose last element is the new id,
      `copy(l[i+1:], l[i:])` followed by `l[i] = id` moves the new id from the
      end to position i and the old elements from i on one place right. */
  lemma ShiftInserts(l: seq<int>, i: int)
    requires 0 <= i < |l|
    ensures (l[..i + 1] + Copy(l[i + 1..], l[i..]))[i := l[|l| - 1]]
         == InsertAt(l[..|l| - 1], i, l[|l| - 1])
  {
    var r := (l[..i + 1] + Copy(l[i + 1..], l[i..]))[i := l[|l| - 1]];
    var s := InsertAt(l[..|l| - 1], i, l[|l| - 1]);
    assert |r| == |s|;
    forall k | 0 <= k < |r| ensures r[k] == s[k] {
      if k > i {
        assert r[k] == l[i..][k - i - 1];
      }
    }
  }

  /** Inserting a new entry t at the search position keeps the order list
      sorted over the extended entries. */
  lemma InsertKeepsSorted(ids: seq<int>, es: seq<seq<byte>>, t: seq<byte>, i: int)
    requires Sorted(ids, es) && 0 <= i <= |ids|
    requires forall k :: 0 <= k < i ==> Less(es[ids[k]], t)
    requires forall k :: i <= k < |ids| ==> Less(t, es[ids[k]])
    ensures Sorted(InsertAt(ids, i, |es|), es + [t])
  {
    var r, es' := InsertAt(ids, i, |es|), es + [t];
    forall k | 0 <= k < |r| ensures 0 <= r[k] < |es'| && (r[k] < |es| ==> es'[r[k]] == es[r[k]]) {
    }
    assert es'[|es|] == t;
    forall p, q | 0 <= p < q < |r| ensures LessEq(es'[r[p]], es'[r[q]]) {
      if p < i && q == i {
        assert Less(es[ids[p]], t);
      } else if p == i {
        assert Less(t, es[ids[q - 1]]);
      } else if q < i {
        assert LessEq(es[ids[p]], es[ids[q]]);
      } else {
        var p' := if p < i then p else p - 1;
        assert LessEq(es[ids[p']], es[ids[q - 1]]);
      }
    }
  }

  /** Every entry listed before position i is at or below every entry listed
      from i on. */
  ghost predicate Partitioned(ids: seq<int>, es: seq<seq<byte>>, i: int)
    requires InRange(ids, es)
  {
    forall a, b :: 0 <= a < i <= b < |ids| ==> LessEq(es[ids[a]], es[ids[b]])
  }

  /** One step of selection sort: swapping the least remaining entry m into
      position i extends the sorted, partitioned prefix by one. */
  lemma SelectStep(ids: seq<int>, es: seq<seq<byte>>, i: int, m: int)
    requires InRange(ids, es) && 0 <= i <= m < |ids|
    requires Sorted(ids[..i], es) && Partitioned(ids, es, i)
    requires forall k :: i <= k < |ids| ==> LessEq(es[ids[m]], es[ids[k]])
    ensures InRange(ids[i := ids[m]][m := ids[i]], es)
    ensures Sorted(ids[i := ids[m]][m := ids[i]][..i + 1], es)
    ensures Partitioned(ids[i := ids[m]][m := ids[i]], es, i + 1)
  {
    var s := ids[i := ids[m]][m := ids[i]];
    assert forall k :: 0 <= k < |s| ==> s[k] == if k == i then ids[m] else if k == m then ids[i] else ids[k];
    forall a, b | 0 <= a < b < i + 1 ensures LessEq(es[s[a]], es[s[b]]) {
      if b < i {
        assert s[a] == ids[..i][a] && s[b] == ids[..i][b];
      }
    }
    forall a, b | 0 <= a < i + 1 <= b < |s| ensures LessEq(es[s[a]], es[s[b]]) {
      if a == i {
        assert s[a] == ids[m];
      } else if b == m {
        assert s[b] == ids[i];
      }
    }
  }
}
