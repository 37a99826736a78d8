/** The byte-string interning store: an append-only arena, one start offset
    per entry, an order list of the entry ids and a flag recording whether the
    lazy sort has run. */
module OSlices {
  import opened Bytes
  import opened Regions
  import opened Order

  /** An entry's identifier: its zero-based insertion number. */
  type RegionID = int

  function Max(a: int, b: int): int { if a < b then b else a }

  function Min(a: int, b: int): int { if a < b then a else b }

  class OSlice {
    /** The bytes held by the buffer, and the buffer's capacity. */
    var arena: seq<byte>
    var capacity: int
    /** Start offset of each entry, indexed by id. */
    var regionList: seq<int>
    /** The ids, in sorted order once the sort has run. */
    var idList: seq<RegionID>
    var isSorted: bool

    /** The invariant every operation keeps. The order list being sorted is
        not part of it: a raw Append after the sort leaves `isSorted` set
        while the new id sits unsorted at the end. */
    ghost predicate Valid()
      reads this
    {
      && WellFormed(arena, regionList)
      && |arena| <= capacity
      && |idList| == |regionList|
      && (forall i :: 0 <= i < |idList| ==> 0 <= idList[i] < |regionList|)
      && IsPermutation(idList, |regionList|)
    }

    /** The stored entries, indexed by id. */
    ghost function Contents(): seq<seq<byte>>
      reads this`arena, this`regionList
      requires WellFormed(arena, regionList)
    {
      Entries(arena, regionList)
    }

    /** The order list lists the entries in byte-lexicographic order. */
    ghost predicate Ordered()
      reads this
      requires WellFormed(arena, regionList)
    {
      Sorted(idList, Contents())
    }

    /** An empty store, unsorted, with a zero-capacity buffer. */
    constructor ()
      ensures Valid()
      ensures arena == [] && capacity == 0 && regionList == [] && idList == [] && !isSorted
    {
      arena, capacity := [], 0;
      regionList, idList := [], [];
      isSorted := false;
    }

    /** The number of entries; the source panics when the two lists disagree. */
    function Len(): (n: int)
      reads this
      requires |regionList| == |idList|
      ensures n == |idList| && n == |regionList|
    {
      |regionList|
    }

    /** Start and end offset of entry `id`. */
    function ByteRange(id: RegionID): (r: (int, int))
      reads this`arena, this`regionList
      requires WellFormed(arena, regionList) && 0 <= id < |regionList|
      ensures 0 <= r.0 <= r.1 <= |arena|
      ensures r.0 == regionList[id]
      ensures arena[r.0..r.1] == Contents()[id]
    {
      var begin := regionList[id];
      var end := if id == |regionList| - 1 then |arena| else regionList[id + 1];
      (begin, end)
    }

    /** The bytes of entry `id`. */
    function Query(id: RegionID): (w: seq<byte>)
      reads this`arena, this`regionList
      requires WellFormed(arena, regionList) && 0 <= id < |regionList|
      ensures w == Contents()[id]
    {
      var r := ByteRange(id);
      arena[r.0..r.1]
    }

    /** The order relation `sort.Sort` uses: the entry at position i of the
        order list sorts strictly before the one at position j. */
    function Less(i: int, j: int): (r: bool)
      reads this
      requires Valid() && 0 <= i < |idList| && 0 <= j < |idList|
      ensures r <==> Bytes.Less(Contents()[idList[i]], Contents()[idList[j]])
      ensures Ordered() && j <= i ==> !r
    {
      PermutationMembers(idList, |regionList|);
      CompareAntisymmetric(Contents()[idList[i]], Contents()[idList[j]]);
      Bytes.Less(Query(idList[i]), Query(idList[j]))
    }

    /** Exchange two positions of the order list. */
    method Swap(i: int, j: int)
      requires Valid() && 0 <= i < |idList| && 0 <= j < |idList|
      modifies this`idList
      ensures Valid()
      ensures idList == old(idList)[i := old(idList)[j]][j := old(idList)[i]]
    {
      SwapPermutes(idList, i, j);
      idList := idList[i := idList[j]][j := idList[i]];
    }

    /** The lazy one-shot sort: the first call orders the order list by the
        entries' bytes and sets the flag; later calls change nothing. */
    method Sort()
      requires Valid()
      modifies this`idList, this`isSorted
      ensures Valid() && isSorted
      ensures old(isSorted) ==> idList == old(idList)
      ensures !old(isSorted) ==> Ordered() && multiset(idList) == multiset(old(idList))
    {
      if !isSorted {
        SortIds();
        isSorted := true;
      }
    }

    /** The library sort over Less and Swap, here a selection sort. */
    method SortIds()
      requires Valid()
      modifies this`idList
      ensures Valid() && Ordered()
      ensures multiset(idList) == multiset(old(idList))
    {
      ghost var es := Contents();
      var n := Len();
      var i := 0;
      while i < n
        invariant 0 <= i <= n == |idList|
        invariant Valid() && Contents() == es
        invariant InRange(idList, es)
        invariant Sorted(idList[..i], es) && Partitioned(idList, es, i)
      {
        var m := LeastFrom(i);
        SelectStep(idList, es, i, m);
        Swap(i, m);
        i := i + 1;
      }
      assert idList[..n] == idList;
    }

    /** The position, from i on, of an entry that no later entry sorts before. */
    method LeastFrom(i: int) returns (m: int)
      requires Valid() && 0 <= i < |idList|
      ensures i <= m < |idList|
      ensures forall k :: i <= k < |idList| ==> LessEq(Query(idList[m]), Query(idList[k]))
    {
      ghost var es := Contents();
      var n := Len();
      var j;
      m, j := i, i + 1;
      while j < n
        invariant i <= m < n && i < j <= n
        invariant forall k :: i <= k < j ==> LessEq(es[idList[m]], es[idList[k]])
      {
        if Less(j, m) {
          forall k | i <= k < j ensures LessEq(es[idList[j]], es[idList[k]]) {
            LessLessEq(es[idList[j]], es[idList[m]], es[idList[k]]);
          }
          m := j;
        } else {
          LessTotal(es[idList[j]], es[idList[m]]);
        }
        j := j + 1;
      }
    }

    /** Trim the buffer's capacity to the length plus `reserve` (a negative
        reserve counts as none) and report the headroom left; when the slack
        is already no more than asked for, nothing changes. The bytes, and
        so every offset, stay as they are. */
    method Shrink(reserve: int) returns (reserved: int)
      requires Valid()
      modifies this`capacity
      ensures Valid()
      ensures reserved == Min(Max(reserve, 0), old(capacity) - |arena|)
      ensures capacity == |arena| + reserved
    {
      var length := |arena|;
      var reserve' := reserve;
      if reserve' < 0 {
        reserve' := 0;
      }
      if capacity - length > reserve' {
        capacity := length + reserve';
        return reserve';
      }
      return capacity - length;
    }

    /** Raw insert without dedup: the bytes go at the end of the arena, the
        old arena length becomes the new entry's start, and the new id, the
        old entry count, goes at the end of the order list. `isSorted` is
        left as it was. */
    method Append(words: seq<byte>) returns (id: RegionID)
      requires Valid()
      modifies this`arena, this`capacity, this`regionList, this`idList
      ensures Valid()
      ensures id == old(|regionList|)
      ensures arena == old(arena) + words
      ensures regionList == old(regionList) + [old(|arena|)]
      ensures idList == old(idList) + [id]
      ensures old(capacity) <= capacity
      ensures Contents() == old(Contents()) + [words]
      ensures Query(id) == words
    {
      var begin := |arena|;
      AppendEntry(arena, regionList, words);
      PermutationExtend(idList, |regionList|);
      arena := arena + words;
      if capacity < |arena| {
        capacity := |arena|;
      }
      id := |regionList|;
      regionList := regionList + [begin];
      idList := idList + [id];
    }

    /** The binary search: a position of the order list holding `text`, or
        else the position where `text` would keep the list sorted. It reads
        the first entry unconditionally, so the store must not be empty. */
    method Locate(text: seq<byte>) returns (i: int, found: bool)
      requires Valid() && |idList| > 0
      ensures 0 <= i <= |idList|
      ensures found ==> i < |idList| && Query(idList[i]) == text
      ensures !found && Ordered() ==>
        && (forall k :: 0 <= k < i ==> Bytes.Less(Query(idList[k]), text))
        && (forall k :: i <= k < |idList| ==> Bytes.Less(text, Query(idList[k])))
      ensures Ordered() ==> (found <==> text in Contents())
    {
      ghost var es := Contents();
      var n := |idList|;
      var data := arena;
      var first, last := 0, n - 1;

      var r := ByteRange(idList[0]);
      var cmp := Compare(text, data[r.0..r.1]);
      CompareAntisymmetric(text, data[r.0..r.1]);
      if cmp == 0 {
        return 0, true;
      } else if cmp < 0 {
        if Ordered() {
          BelowFrom(idList, es, text, 0);
          NotStored(idList, es, text, 0);
        }
        return 0, false;
      }

      r := ByteRange(idList[last]);
      cmp := Compare(text, data[r.0..r.1]);
      CompareAntisymmetric(text, data[r.0..r.1]);
      if cmp == 0 {
        return n - 1, true;
      } else if cmp > 0 {
        if Ordered() {
          AboveUpTo(idList, es, text, n - 1);
          NotStored(idList, es, text, n);
        }
        return n, false;
      }

      var mid := 0;
      while last - first > 1
        invariant 0 <= first < last < n
        invariant Bytes.Less(es[idList[first]], text)
        invariant Bytes.Less(text, es[idList[last]])
        decreases last - first
      {
        mid := (last + first) / 2;
        r := ByteRange(idList[mid]);
        cmp := Compare(text, data[r.0..r.1]);
        CompareAntisymmetric(text, data[r.0..r.1]);
        if cmp == 0 {
          return mid, true;
        } else if cmp < 0 {
          last := mid;
        } else {
          first := mid;
        }
      }

      if Ordered() {
        AboveUpTo(idList, es, text, first);
        BelowFrom(idList, es, text, last);
        NotStored(idList, es, text, last);
      }
      return last, false;
    }

    /** Existence check; sorts first when the sort has not yet run. The
        answer is exact unless a raw Append after the sort has left the
        order list out of order. */
    method Search(text: seq<byte>) returns (found: bool)
      requires Valid() && |idList| > 0
      modifies this`idList, this`isSorted
      ensures Valid() && isSorted
      ensures old(isSorted) ==> idList == old(idList)
      ensures multiset(idList) == multiset(old(idList))
      ensures old(!isSorted || Ordered()) ==> Ordered()
      ensures found ==> text in Contents()
      ensures old(!isSorted || Ordered()) ==> (found <==> text in Contents())
    {
      if !isSorted {
        Sort();
      }
      var i;
      i, found := Locate(text);
    }

    /** The insert path of FoundOrInsert: append `text` as a new entry, then
        `copy` shifts the order list from position i on one place right, over
        the new id at the end, and the new id is written at i. */
    method InsertNew(text: seq<byte>, i: int) returns (id: RegionID)
      requires Valid() && 0 <= i <= |idList|
      modifies this`arena, this`capacity, this`regionList, this`idList
      ensures Valid()
      ensures id == old(|regionList|)
      ensures arena == old(arena) + text
      ensures regionList == old(regionList) + [old(|arena|)]
      ensures idList == InsertAt(old(idList), i, id)
      ensures old(capacity) <= capacity
      ensures Contents() == old(Contents()) + [text]
    {
      ghost var s := idList;
      InsertNextId(s, |regionList|, i);
      id := Append(text);
      assert idList == s + [id] && idList[..|idList| - 1] == s;
      ShiftInserts(idList, i);
      idList := idList[..i + 1] + Copy(idList[i + 1..], idList[i..]);
      idList := idList[i := id];
    }

    /** Deduplicating insert: the id of the entry holding `text` when there
        is one; otherwise `text` is appended and its new id spliced into the
        order list at the search position. The dedup and the order are exact
        unless a raw Append after the sort has left the order list out of
        order. */
    method FoundOrInsert(text: seq<byte>) returns (id: RegionID)
      requires Valid() && |idList| > 0
      modifies this`arena, this`capacity, this`regionList, this`idList, this`isSorted
      ensures Valid() && isSorted
      ensures 0 <= id < |regionList| && Query(id) == text
      ensures old(!isSorted || Ordered()) ==> Ordered()
      ensures old(!isSorted || Ordered()) ==> (id < old(|regionList|) <==> text in old(Contents()))
      ensures old(!isSorted || Ordered()) && old(Distinct(Contents())) ==> Distinct(Contents())
      ensures id < old(|regionList|) ==>
        && arena == old(arena) && regionList == old(regionList) && capacity == old(capacity)
        && (old(isSorted) ==> idList == old(idList))
      ensures id >= old(|regionList|) ==>
        && id == old(|regionList|)
        && arena == old(arena) + text && regionList == old(regionList) + [old(|arena|)]
        && old(capacity) <= capacity
        && Contents() == old(Contents()) + [text]
        && (old(isSorted) ==> exists p :: 0 <= p <= old(|idList|) && idList == InsertAt(old(idList), p, id))
    {
      ghost var consistent := !isSorted || Ordered();
      if !isSorted {
        Sort();
      }
      ghost var es := Contents();
      ghost var sorted := idList;
      var i, ok := Locate(text);
      if ok {
        id := idList[i];
        assert id < old(|regionList|);
        return;
      }
      if consistent {
        InsertKeepsSorted(sorted, es, text, i);
        if Distinct(es) {
          DistinctExtend(es, text);
        }
      }
      id := InsertNew(text, i);
      assert old(isSorted) ==> sorted == old(idList) && idList == InsertAt(old(idList), i, id);
    }
  }

  /** Interning is idempotent: on a store whose order list is consistent
      and whose entries are distinct, inserting the same bytes twice yields
      the same id, and the second call stores nothing. */
  method InternTwice(o: OSlice, text: seq<byte>) returns (first: RegionID, second: RegionID)
    requires o.Valid() && |o.idList| > 0
    requires !o.isSorted || o.Ordered()
    requires Distinct(o.Contents())
    modifies o
    ensures first == second
    ensures o.Valid() && 0 <= first < |o.regionList| && o.Query(first) == text
    ensures o.Contents() == old(o.Contents()) + (if text in old(o.Contents()) then [] else [text])
  {
    first := o.FoundOrInsert(text);
    ghost var n := |o.regionList|;
    second := o.FoundOrInsert(text);
    assert second < n;
  }
}
