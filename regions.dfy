/** The arena and its region table: one start offset per entry, the entry
    ending where the next one starts, or at the arena's end for the last. */
module Regions {
  import opened Bytes

  /** The table's invariant: the first entry starts at offset 0 (an empty table
      means an empty arena), starts never decrease, and none lies past the arena. */
  ghost predicate WellFormed(arena: seq<byte>, regions: seq<int>)
  {
    && (|regions| == 0 ==> |arena| == 0)
    && (|regions| > 0 ==> regions[0] == 0)
    && (forall i, j :: 0 <= i <= j < |regions| ==> regions[i] <= regions[j])
    && (forall i :: 0 <= i < |regions| ==> regions[i] <= |arena|)
  }

  /** Offset one past the last byte of entry `id`. */
  function End(arenaLen: int, regions: seq<int>, id: int): int
    requires 0 <= id < |regions|
  {
    if id == |regions| - 1 then arenaLen else regions[id + 1]
  }

  /** The bytes of entry `id`: the arena between its start and its end. */
  function Slice(arena: seq<byte>, regions: seq<int>, id: int): (w: seq<byte>)
    requires WellFormed(arena, regions) && 0 <= id < |regions|
  {
    assert regions[id] <= End(|arena|, regions, id) <= |arena|;
    arena[regions[id]..End(|arena|, regions, id)]
  }

  /** The entries the arena holds, indexed by id. */
  ghost function Entries(arena: seq<byte>, regions: seq<int>): (es: seq<seq<byte>>)
    requires WellFormed(arena, regions)
    ensures |es| == |regions|
    ensures forall id :: 0 <= id < |regions| ==> es[id] == Slice(arena, regions, id)
  {
    seq(|regions|, id requires 0 <= id < |regions| => Slice(arena, regions, id))
  }

  /** Cutting the arena at the last start leaves the earlier entries as they
      are; the last entry is the arena's tail from that start. */
  lemma SplitLast(arena: seq<byte>, regions: seq<int>)
    requires WellFormed(arena, regions) && |regions| > 0
    ensures WellFormed(arena[..regions[|regions| - 1]], regions[..|regions| - 1])
    ensures Entries(arena, regions)
         == Entries(arena[..regions[|regions| - 1]], regions[..|regions| - 1])
            + [arena[regions[|regions| - 1]..]]
  {
    var n, last := |regions|, regions[|regions| - 1];
    var prefix, starts := arena[..last], regions[..n - 1];
    var es, es' := Entries(arena, regions), Entries(prefix, starts);
    forall id | 0 <= id < n - 1 ensures es[id] == es'[id] {
      var b, e := regions[id], End(|arena|, regions, id);
      assert End(|prefix|, starts, id) == e;
      assert prefix[b..e] == arena[b..e];
    }
    assert es[n - 1] == arena[last..|arena|] == arena[last..];
    assert es == es' + [arena[last..]];
  }

  /** Appending `w` at the arena's end with a new start at the old length keeps
      the table well formed, keeps every earlier entry and adds `w` as the last. */
  lemma AppendEntry(arena: seq<byte>, regions: seq<int>, w: seq<byte>)
    requires WellFormed(arena, regions)
    ensures WellFormed(arena + w, regions + [|arena|])
    ensures Entries(arena + w, regions + [|arena|]) == Entries(arena, regions) + [w]
  {
    var arena', regions' := arena + w, regions + [|arena|];
    SplitLast(arena', regions');
    assert arena'[..|arena|] == arena;
    assert regions'[..|regions|] == regions;
  }

  /** Concatenation of a sequence of byte strings. */
  function Flatten(es: seq<seq<byte>>): (r: seq<byte>)
  {
    if |es| == 0 then [] else Flatten(es[..|es| - 1]) + es[|es| - 1]
  }

  /** The entries cover the arena exactly, in insertion order, with no gaps. */
  lemma {:induction false} EntriesCoverArena(arena: seq<byte>, regions: seq<int>)
    requires WellFormed(arena, regions)
    ensures Flatten(Entries(arena, regions)) == arena
    decreases |regions|
  {
    var n := |regions|;
    if n > 0 {
      var last := regions[n - 1];
      var es := Entries(arena, regions);
      SplitLast(arena, regions);
      EntriesCoverArena(arena[..last], regions[..n - 1]);
      assert es[..n - 1] == Entries(arena[..last], regions[..n - 1]);
      assert arena == arena[..last] + arena[last..];
    }
  }
}
