/** The scenario of the repository's unit test (oslice_test.go, Test_OSlice),
    replayed against the contracts of the model. */
module OSliceScenario {
  import opened Bytes
  import opened Order
  import opened OSlices

  /** With the five one-byte entries "a", "b", "e", "c", "k", the only sorted
      order list is the one the test expects. */
  lemma TestOrder(ids: seq<int>, es: seq<seq<byte>>)
    requires es == [[97], [98], [101], [99], [107]]
    requires IsPermutation(ids, 5) && Sorted(ids, es)
    ensures ids == [0, 1, 3, 2, 4]
  {
    PermutationMembers(ids, 5);
    OrderFromPositions(ids, es);
  }

  /** A sorted list of length five that holds each of the five ids: "a" < "b"
      < "c" < "e" < "k", so a later position never holds a smaller entry and
      the ids come in the order 0, 1, 3, 2, 4. */
  lemma {:induction false} OrderFromPositions(ids: seq<int>, es: seq<seq<byte>>)
    requires es == [[97], [98], [101], [99], [107]]
    requires |ids| == 5 && forall k :: 0 <= k < 5 ==> k in ids
    requires Sorted(ids, es)
    ensures ids == [0, 1, 3, 2, 4]
  {
    assert 0 in ids && 1 in ids && 2 in ids && 3 in ids && 4 in ids;
    var q0 :| 0 <= q0 < 5 && ids[q0] == 0;
    var q1 :| 0 <= q1 < 5 && ids[q1] == 1;
    var q2 :| 0 <= q2 < 5 && ids[q2] == 2;
    var q3 :| 0 <= q3 < 5 && ids[q3] == 3;
    var q4 :| 0 <= q4 < 5 && ids[q4] == 4;
    assert !LessEq(es[ids[q1]], es[ids[q0]]) && !LessEq(es[ids[q3]], es[ids[q1]]);
    assert !LessEq(es[ids[q2]], es[ids[q3]]) && !LessEq(es[ids[q4]], es[ids[q2]]);
    assert q0 < q1 && q1 < q3 && q3 < q2 && q2 < q4;
    assert q0 == 0 && q1 == 1 && q3 == 2 && q2 == 3 && q4 == 4;
    assert ids == [ids[0], ids[1], ids[2], ids[3], ids[4]];
  }

  /** The five appends of the test: "a", "b", "e", "c", "k" into a new store. */
  method BuildStore() returns (o: OSlice)
    ensures fresh(o) && o.Valid() && !o.isSorted
    ensures |o.arena| == 5 && o.regionList == [0, 1, 2, 3, 4]
    ensures o.Contents() == [[97], [98], [101], [99], [107]]
  {
    o := AppendAB();
    AppendEC(o);
    AppendK(o);
  }

  /** A new store holding "a" and "b". */
  method AppendAB() returns (o: OSlice)
    ensures fresh(o) && o.Valid() && !o.isSorted
    ensures |o.arena| == 2 && o.regionList == [0, 1]
    ensures o.Contents() == [[97], [98]]
  {
    o := new OSlice();
    var a := o.Append([97]);
    var b := o.Append([98]);
  }

  /** Appending "e" and "c". */
  method AppendEC(o: OSlice)
    requires o.Valid() && !o.isSorted
    requires |o.arena| == 2 && o.regionList == [0, 1]
    requires o.Contents() == [[97], [98]]
    modifies o
    ensures o.Valid() && !o.isSorted
    ensures |o.arena| == 4 && o.regionList == [0, 1, 2, 3]
    ensures o.Contents() == [[97], [98], [101], [99]]
  {
    var e := o.Append([101]);
    var c := o.Append([99]);
  }

  /** Appending "k". */
  method AppendK(o: OSlice)
    requires o.Valid() && !o.isSorted
    requires |o.arena| == 4 && o.regionList == [0, 1, 2, 3]
    requires o.Contents() == [[97], [98], [101], [99]]
    modifies o
    ensures o.Valid() && !o.isSorted
    ensures |o.arena| == 5 && o.regionList == [0, 1, 2, 3, 4]
    ensures o.Contents() == [[97], [98], [101], [99], [107]]
  {
    var k := o.Append([107]);
  }

  /** Sorting puts the order list at [0, 1, 3, 2, 4]. */
  method SortStore(o: OSlice)
    requires o.Valid() && !o.isSorted
    requires o.Contents() == [[97], [98], [101], [99], [107]]
    modifies o`idList, o`isSorted
    ensures o.Valid() && o.isSorted && o.Ordered() && o.idList == [0, 1, 3, 2, 4]
  {
    o.Sort();
    TestOrder(o.idList, o.Contents());
  }

  /** On the sorted store, "e" is found and "d" is not; the order list stays
      as it was. */
  method SearchStore(o: OSlice) returns (foundE: bool, foundD: bool)
    requires o.Valid() && o.isSorted && o.Ordered() && o.idList == [0, 1, 3, 2, 4]
    requires o.Contents() == [[97], [98], [101], [99], [107]]
    modifies o`idList, o`isSorted
    ensures foundE && !foundD
    ensures o.Valid() && o.idList == [0, 1, 3, 2, 4]
  {
    foundE := o.Search([101]);
    assert o.Contents()[2] == [101];
    foundD := o.Search([100]);
  }

  /** Positions 0 and 2 of the sorted order list hold "a" and "c". */
  method QueryStore(o: OSlice) returns (first: seq<byte>, third: seq<byte>)
    requires o.Valid() && o.idList == [0, 1, 3, 2, 4]
    requires o.Contents() == [[97], [98], [101], [99], [107]]
    ensures first == [97] && third == [99]
  {
    first := o.Query(o.idList[0]);
    third := o.Query(o.idList[2]);
  }

  /** Shrinking with no reserve leaves a capacity of exactly the five bytes. */
  method ShrinkStore(o: OSlice)
    requires o.Valid() && |o.arena| == 5
    modifies o`capacity
    ensures o.Valid() && o.capacity == 5
  {
    var reserved := o.Shrink(0);
  }

  /** The test in full: five appends, a sort, the searches and the queries,
      and the shrink, returning what the test checks last. Shrink touches only
      the capacity and Search neither the buffer nor the order list of a
      sorted store, so running the shrink after the searches leaves every
      value the test checks the same. */
  method TestOSlice() returns (foundE: bool, foundD: bool, first: seq<byte>, third: seq<byte>, capacity: int)
    ensures foundE && !foundD
    ensures first == [97] && third == [99]
    ensures capacity == 5
  {
    var o := BuildStore();
    SortStore(o);
    foundE, foundD := SearchStore(o);
    first, third := QueryStore(o);
    ShrinkStore(o);
    capacity := o.capacity;
  }
}
