# OSlice: a byte-string interning store, in Dafny

`OSlice` (package `oslice`, file `oslice.go`) stores byte strings in a single
growing buffer. It has four parts:

- **Arena.** One buffer holding the bytes of every entry, back to back.
- **Region table.** `regionList` holds one start offset per entry. An entry
  ends where the next one starts; the last entry ends at the end of the
  buffer.
- **Order list.** `idList` holds the entry ids (insertion numbers
  0..n-1). Once sorted, it lists them in byte-lexicographic order of their
  bytes.
- **Sorted flag.** `isSorted` records whether the lazy sort has run.

The operations:

- `Append` adds bytes without deduplication.
- `Sort` orders the order list once.
- `search` is a hand-written binary search. It returns either a match
  position or the position where the text would be inserted.
- `Search` and `FoundOrInsert` are built on `search`. `FoundOrInsert` is the
  deduplicating insert: it splices a new id into the order list at the
  search position.
- `Query` and `byteRange` map an id to its bytes.
- `Shrink` trims the buffer's capacity.

The project has five modules:

- `bytes.dfy`, module `Bytes`: bytes and the three-way comparison
  `bytes.Compare`, with its order lemmas.
- `regions.dfy`, module `Regions`: the region table's invariant, and what
  the table says the entries are.
- `order.dfy`, module `Order`:
  - permutations of the ids;
  - what a sorted order list is;
  - the lemmas behind the binary search and the insert-by-shift;
  - Go's `copy`.
- `oslice.dfy`, module `OSlices`:
  - the class `OSlice`, with the source's fields as `seq` fields, an
    abstract integer `capacity`, and one method or function per operation;
  - a client method showing that interning is idempotent.
- `oslice_test.dfy`, module `OSliceScenario`: the repository's unit test
  `Test_OSlice`, replayed against the contracts.

`Valid()` is the invariant every operation keeps:

- the region table is well formed:
  - the first start is 0;
  - starts never decrease;
  - no start lies past the arena;
  - an empty table means an empty arena;
- the arena fits in the capacity;
- the two lists have the same length;
- the order list is a permutation of `0..n-1`.

It deliberately does **not** include "`isSorted` implies the order list is
sorted". `Append` never clears the flag, so a raw `Append` after `Sort`
leaves `isSorted` set while the new id sits unsorted at the end. For the
same reason, the guarantees of `Search` and `FoundOrInsert` are stated for
a store whose order list is consistent: unsorted, or really sorted.
`Sort`, `Search` and `FoundOrInsert` preserve that consistency, and leave a
never-sorted store sorted; `Append` does not.

`search` reads `idList[0]` without checking for an empty list, so on an
empty store `Search` and `FoundOrInsert` fault. That is why `Locate` (the
model of `search`), `Search` and `FoundOrInsert` require a non-empty store.

## Model

| member | source | states |
|---|---|---|
| Bytes.Compare | oslice.go:39 | `bytes.Compare`: the result is -1, 0 or +1, and 0 exactly when the two strings are equal |
| Bytes.CompareAntisymmetric | oslice.go:123-127 | swapping the operands negates the comparison, so `Compare(text, e) < 0` means `e` sorts after `text` |
| Bytes.LessTotal | oslice.go:144-151 | of two strings, either one sorts strictly before the other or they are equal; not-less means greater-or-equal |
| Bytes.LessTransitive | oslice.go:38-40 | the strict order used by `Less` is transitive |
| Bytes.LessEqLess | oslice.go:38-40 | at-most followed by strictly-less gives strictly-less |
| Bytes.LessLessEq | oslice.go:38-40 | strictly-less followed by at-most gives strictly-less |
| Bytes.LessEqTransitive | oslice.go:38-40 | the non-strict order is transitive |
| Bytes.LessIsLexicographic | oslice.go:39 | `Less` holds exactly when there is a first difference: the strings agree on a prefix, after which the first ends while the second goes on, or the first has the smaller next byte |
| Bytes.LessHasFirstDifference | oslice.go:39 | a string that sorts before another has a first difference with it |
| Bytes.FirstDifferenceIsLess | oslice.go:39 | a first difference makes the first string sort before the second |
| Bytes.PrefixIsLess | oslice.go:39 | a strict prefix sorts before the longer string |
| Regions.Entries | oslice.go:157-171 | the stored entries: one per region, each the arena slice of its region |
| Regions.SplitLast | oslice.go:160-163 | cutting the arena at the last start leaves every earlier entry's bytes unchanged; the last entry is the arena's tail |
| Regions.AppendEntry | oslice.go:72-86 | pushing the old arena length as a start and writing `w` keeps the table well formed, keeps every earlier entry's bytes (the previous last one included), and adds `w` as the last entry |
| Regions.EntriesCoverArena | oslice.go:72-86 | concatenating the entries in id order gives exactly the arena, with no gaps or overlaps |
| Order.Iota | oslice.go:80-83 | the ids `0..n-1` in insertion order |
| Order.PermutationMembers | oslice.go:31-36 | a permutation of `0..n-1` has length `n`, holds only valid ids and holds every id |
| Order.PermutationDistinct | oslice.go:42-44 | no id occurs twice in a permutation |
| Order.IotaOnce | oslice.go:80-83 | each id occurs in `0..n-1` at most once |
| Order.PermutationExtend | oslice.go:82-83 | pushing the next id keeps the order list a permutation |
| Order.SwapPermutes | oslice.go:42-44 | exchanging two positions keeps the elements' multiplicities |
| Order.BelowFrom | oslice.go:126-127 | in a sorted list, text below the entry at position p is below every later entry |
| Order.AboveUpTo | oslice.go:135-136 | in a sorted list, text above the entry at position p is above every earlier entry |
| Order.NotStored | oslice.go:154 | if the order list splits at i into entries below and entries above the text, the text is not stored |
| Order.Copy | oslice.go:108 | Go's `copy(dst, src)`: the first `min(len(dst), len(src))` elements of dst are replaced by src's; the length stays |
| Order.InsertAt | oslice.go:107-109 | inserting `x` before position i: the earlier elements stay, `x` is at i, and the later ones move one place right |
| Order.InsertAtPermutes | oslice.go:107-109 | inserting adds exactly one occurrence of `x` |
| Order.InsertNextId | oslice.go:107-109 | inserting the new id anywhere keeps the order list a permutation of `0..n` |
| Order.ShiftInserts | oslice.go:108-109 | `copy(l[i+1:], l[i:])` and then `l[i] = id`, on a list whose last element is the new id, equal inserting the id at i into the old list |
| Order.InsertKeepsSorted | oslice.go:102-109 | inserting new text at the position the search reports keeps the order list sorted over the extended entries |
| Order.SelectStep | oslice.go:46-51 | one selection step extends the sorted, partitioned prefix by one |
| Order.DistinctExtend | oslice.go:102-107 | appending bytes not yet stored keeps the entries distinct |
| OSlices.OSlice.constructor | oslice.go:18-29 | `New`: an empty, unsorted store with an empty buffer, satisfying the invariant |
| OSlices.OSlice.Len | oslice.go:31-36 | requires the two lists to have the same length (the source panics otherwise); returns that length |
| OSlices.OSlice.ByteRange | oslice.go:157-166 | `byteRange`: the offsets are in bounds and ordered, `begin` is the entry's start, and the slice between them is the entry's bytes |
| OSlices.OSlice.Query | oslice.go:168-171 | the bytes returned are exactly entry `id` |
| OSlices.OSlice.Less | oslice.go:38-40 | true exactly when the entry at position i sorts strictly before the entry at position j; in a sorted list never for `j <= i` |
| OSlices.OSlice.Swap | oslice.go:42-44 | the order list with positions i and j exchanged; still a permutation |
| OSlices.OSlice.Sort | oslice.go:46-51 | afterwards the flag is set. The first call leaves the order list sorted by bytes and a permutation of what it was; a later call changes nothing. Arena and offsets are untouched |
| OSlices.OSlice.SortIds | oslice.go:48 | `sort.Sort(o)` over `Less`/`Swap`: the order list ends sorted and a permutation of what it was |
| OSlices.OSlice.LeastFrom | oslice.go:38-40 | finds a position from i on whose entry no later entry sorts before, using only `Less` |
| OSlices.OSlice.Shrink | oslice.go:53-70 | a negative reserve counts as 0. With more slack than the reserve, the capacity becomes length plus reserve and the reserve is returned; otherwise nothing changes and the slack is returned. The arena, the offsets and the invariant are kept |
| OSlices.OSlice.Append | oslice.go:72-86 | returns the old entry count as the id: the arena is extended by `w`, the old length pushed as the new start and the id pushed onto the order list. Every earlier entry is unchanged, `Query(id) == w`, and the flag and the invariant are kept |
| OSlices.OSlice.Locate | oslice.go:114-155 | `search` on a non-empty store. A reported match holds the text. On a sorted list, found exactly when the text is stored, and otherwise the position splits the list into entries below and above the text (0 when below the first, n when above the last) |
| OSlices.OSlice.Search | oslice.go:88-95 | sorts if needed, then reports whether the text is stored. A consistent order list (unsorted, or really sorted) ends sorted, and the order list stays a permutation of what it was; an order list already flagged sorted is left as it is. The answer is exact when the order list was consistent, and never a false positive |
| OSlices.OSlice.InsertNew | oslice.go:107-109 | the insert path: the text is appended as a new entry and the new id sits at position i of the order list, with the elements from i on shifted right by one |
| OSlices.OSlice.FoundOrInsert | oslice.go:97-112 | the returned id holds the text. On a consistent store it is an existing id exactly when the text was stored, and then arena, offsets and capacity are unchanged (and so is the order list when it was already sorted). Otherwise the id is the old count and the text is appended; the id is spliced into the old order list when that was already sorted, and into the freshly sorted list otherwise. A consistent store ends sorted, and distinct entries stay distinct |
| OSlices.InternTwice | oslice.go:97-112 | on a consistent store with distinct entries, two `FoundOrInsert` calls with the same bytes return the same id, and the text ends up stored exactly once |
| OSliceScenario.AppendAB | oslice_test.go:24-27 | a new store after appending "a" and "b": two bytes, offsets `[0, 1]`, entries "a", "b", not yet sorted |
| OSliceScenario.AppendEC | oslice_test.go:28-29 | appending "e" and "c" to that store gives four bytes, offsets `[0, 1, 2, 3]` and entries "a", "b", "e", "c" |
| OSliceScenario.AppendK | oslice_test.go:30 | appending "k" gives five bytes, offsets `[0, 1, 2, 3, 4]` and the five entries |
| OSliceScenario.TestOrder | oslice_test.go:26-37 | after appending "a", "b", "e", "c", "k", the only sorted order list is `[0, 1, 3, 2, 4]` |
| OSliceScenario.OrderFromPositions | oslice_test.go:37 | a sorted list holding each of the five ids is `[0, 1, 3, 2, 4]` |
| OSliceScenario.BuildStore | oslice_test.go:24-30 | the five appends leave five bytes, the offsets `[0, 1, 2, 3, 4]` and the five one-byte entries, as lines 35-36 expect |
| OSliceScenario.SortStore | oslice_test.go:32-37 | sorting that store gives the order list `[0, 1, 3, 2, 4]` |
| OSliceScenario.SearchStore | oslice_test.go:39-40 | the search for "e" answers true and the search for "d" false, and the order list stays as it was |
| OSliceScenario.QueryStore | oslice_test.go:41-42 | `Query` of positions 0 and 2 of the sorted order list returns "a" and "c" |
| OSliceScenario.ShrinkStore | oslice_test.go:33-38 | shrinking the five-byte store with no reserve leaves a capacity of 5 |
| OSliceScenario.TestOSlice | oslice_test.go:23-43 | the whole test: after the five appends and the sort, "e" is found, "d" is not and positions 0 and 2 of the order list hold "a" and "c"; after the shrink the capacity is 5 |

## Left out

- The unit test calls `Shrink()` without an argument, which does not match
  the signature `Shrink(reserve int)`. The model reads it as `Shrink(0)`.
- `OSliceScenario.TestOSlice` runs the shrink after the searches rather than
  before. Shrink changes only the capacity, and Search on a sorted store
  changes neither the buffer nor the order list, so every value the test
  checks is the same.
- The write-failure path of `Append` (`log.Panicln` when `bytes.Buffer.Write`
  fails) is left out. The buffer write is foreign code; the model treats it
  as never failing.
- `OSlices.OSlice.Append`: the buffer's growth policy is not modelled.
  Capacity is an abstract integer, and the contract only says it never
  drops below the arena length and never decreases.
- Go slice aliasing is not modelled:
  - `Query` returns a value, not a view into the buffer;
  - `Shrink`'s re-slice without copying leaves the bytes as they are.
- `OSlices.OSlice.SortIds`: the algorithm inside the library `sort.Sort` is
  not modelled. A selection sort over the same `Less` and `Swap` stands in.
  The contract is the library's: sorted, and a permutation. Stability is not
  promised by the library and is not stated.
- `Init` only guards against a nil buffer in a zero-valued struct. In the
  model every store comes from the constructor, so the guard has nothing to
  do.
- An id out of range in `Query`, `byteRange` or `Less`, and a position out of
  range in `Swap`, make the source panic on an index. In the model these are
  preconditions.
- The dictionary-loading helper and the benchmarks in `oslice_test.go` are
  left out: they do file I/O and measure performance.
- There is no concurrency in the source, so none in the model.
