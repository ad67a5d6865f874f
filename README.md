# FreeList in Dafny

A model of `FreeList<T>` from `include/FreeList.hpp`: a doubly-linked list
whose nodes live in one growing vector (the arena) and refer to each other by
slot index, with SIZE_MAX (2^64 - 1) standing for "no slot". Slots whose
value was erased form a singly-linked free chain through their `nextFree`
field. `allocateNode` reuses the first free slot before it grows the arena.
An iterator is a slot index, and `end()` is SIZE_MAX.

The class `FreeLists.FreeList` has the source's fields: the arena `nodes`
(a sequence of `Node` values), `head`, `tail`, `freeHead` and `count`
(`size_`). It also has two ghost sequences: `live`, the slots of the list
front to back, and `free`, the free chain. `Valid()` says four things:
- the `next`/`prev` links spell out `live` from `head` to `tail`;
- the `nextFree` links spell out `free` from `freeHead`;
- the two chains together use every slot of the arena exactly once;
- `count` is the length of the list.

Every method does the source's index updates step by step. Its contract
gives the new list contents and slot order in terms of the old ones. The
value-level lemmas of module `Arena` prove that each linking step keeps the
invariant.

The sort is specified in module `MergeSpec` by three functions over slot
sequences:
- `Merged` is the merge of `mergeIterative`;
- `MergePass` is one pass of the outer loop of `bottomUpMergeSortRange`;
- `BottomUp` is the sequence of passes.

`SortedSlots` is the resulting slot order. The class methods are proved to
relink the arena into exactly that order, and the lemmas prove two facts
about that order:
- it is a permutation of the range;
- it is ordered when the comparator is a strict weak order.

Slots keep their values throughout (`Data()` is unchanged), so an iterator
taken before a sort still names the same value afterwards.

Two behaviours of the code are modelled as written, although a reader might
expect otherwise:
- **The sort is not stable.** `mergeIterative` takes the left element only
  when it goes strictly before the right one. On ties it takes the right
  one. `MergeSpec.MergeTieTakesRight` states this tie rule, and
  `MergeSpec.SortSwapsEqualPair` shows two equal values swapped by a sort.
- **Range insert before a live slot reverses the range.** Each new element
  is inserted before the one inserted just before it. Range insert at
  `end()` keeps the order. `FreeLists.FreeList.InsertRange` states both
  cases.

Modules:
- `Slots`: sequences of slot indices.
- `Chains`: the `Node` datatype and what it means for links to spell out a
  chain.
- `Arena`: the invariant on plain values, with one lemma per linking step.
- `MergeSpec`: the sort specification and its properties.
- `Runs`: the loop invariants of the merge and of one pass.
- `Ranges`: disconnecting a range and reconnecting it.
- `FreeLists`: the class.

## Model

| member | source | states |
|---|---|---|
| FreeLists.FreeList.constructor | include/FreeList.hpp:440 | the new list is empty, with no slots and no free chain, and satisfies the invariant |
| FreeLists.FreeList.AllocateNode | include/FreeList.hpp:36-68 | with a free slot, `freeHead` is reused, `freeHead` moves to its `nextFree`, and the arena keeps its size; with none, the arena grows by one slot whose index is the old size; the slot holds the value with SIZE_MAX links, `size_` grows by one, and the list's values are unchanged |
| FreeLists.FreeList.Remove | include/FreeList.hpp:70-92 | an index outside the arena changes nothing; a live slot leaves the list at its position, the values lose exactly that element, the slot becomes the first free slot, and the invariant is kept |
| FreeLists.FreeList.PushFront | include/FreeList.hpp:530-544 | the values become `[data]` followed by the old values and the new head slot comes before every old live slot; that slot is the reused free slot, popped off the free chain, or the new last slot of the arena |
| FreeLists.FreeList.PushBack | include/FreeList.hpp:546-558 | the values become the old values followed by `data` and the new tail slot comes after every old live slot; that slot is the reused free slot, popped off the free chain, or the new slot |
| FreeLists.FreeList.EmplaceBack | include/FreeList.hpp:585-599 | appends `data` in a slot after every old live slot, popped off the free chain or new, and returns that slot, which is the tail and holds `data` |
| FreeLists.FreeList.Insert | include/FreeList.hpp:640-699 | puts `data` just before the iterator's position (at the end for `end()`), keeps every other slot in order, and returns the new slot: the first free slot, popped off the free chain, or a new slot at the end of the arena |
| FreeLists.FreeList.Emplace | include/FreeList.hpp:560-583 | like `Insert`: `data` is placed just before `pos`, or at the end for `end()`, in the first free slot, popped off the free chain, or in a new slot at the end of the arena, which is returned |
| FreeLists.FreeList.InsertRange | include/FreeList.hpp:701-741 | at `end()` the range is appended in order; before a live slot it lands there in reverse order; the new slots are the ones successive allocations take (the free chain from its head, then new slots at the end of the arena), and the free chain and arena are left as those allocations leave them; the result is the slot of the first source element; an empty range returns `end()` and leaves the arena, the list and the free chain unchanged |
| FreeLists.FreeList.Erase | include/FreeList.hpp:601-613 | removes exactly the element at `pos`, returns its successor (`end()` after the last element), and pushes the slot onto the free chain |
| FreeLists.FreeList.EraseRange | include/FreeList.hpp:615-629 | removes exactly the elements from `first` up to (not including) `last` and returns `last`; the erased slots head the free chain, last erased first |
| FreeLists.FreeList.InsertThenErase | include/FreeList.hpp:601-613 | erasing the element that `insert` just created restores the list's slots and values, and returns the original iterator |
| FreeLists.FreeList.EraseThenPushBack | include/FreeList.hpp:36-51 | after an erase, the next `push_back` reuses the erased slot as the new tail |
| FreeLists.FreeList.Find | include/FreeList.hpp:631-638 | returns `end()` exactly when the value is absent; otherwise a live slot holding it, with no earlier element equal to it |
| FreeLists.FreeList.PopFront | include/FreeList.hpp:767-771 | an empty list, its arena and its free chain are unchanged; otherwise the first slot leaves the list, with its value, and becomes the first free slot |
| FreeLists.FreeList.PopBack | include/FreeList.hpp:773-779 | an empty list, its arena and its free chain are unchanged; otherwise the last slot leaves the list, with its value, and becomes the first free slot |
| FreeLists.FreeList.Clear | include/FreeList.hpp:797-801 | the list, the arena and the free chain become empty, and the invariant holds |
| FreeLists.FreeList.Empty | include/FreeList.hpp:781-783 | true exactly when the list has no values |
| FreeLists.FreeList.Size | include/FreeList.hpp:785-787 | `size_` is the number of values in the list |
| FreeLists.FreeList.Front | include/FreeList.hpp:759-761 | the first value of a non-empty list |
| FreeLists.FreeList.Back | include/FreeList.hpp:763-765 | the last value of a non-empty list |
| FreeLists.FreeList.Begin | include/FreeList.hpp:424 | `end()` exactly for an empty list; otherwise the slot at position 0 |
| FreeLists.FreeList.Get | include/FreeList.hpp:280-286 | dereferencing an iterator gives the value at its position in the list |
| FreeLists.FreeList.Succ | include/FreeList.hpp:297-300 | `++` moves to the next position, and past the last element to `end()` |
| FreeLists.FreeList.Pred | include/FreeList.hpp:308-315 | `--` moves to the previous position, and from `end()` to the last element; from the first element it gives `end()` |
| FreeLists.FreeList.MergeRuns | include/FreeList.hpp:95-135 | relinks only the slots of the two chains into the chain `Merged(ls, rs)`, with correct `prev` links when both are non-empty, and returns its head and tail; when one chain is empty it returns the other and changes nothing |
| FreeLists.FreeList.FixLinks | include/FreeList.hpp:122-133 | the second loop of `mergeIterative` makes the `prev` links agree with the merged `next` chain and returns its last slot |
| FreeLists.FreeList.SplitRun | include/FreeList.hpp:178-190 | cuts the first run of `w` slots (fewer at the end) off the chain, returns its tail and the rest of the chain, and leaves both parts linked |
| FreeLists.FreeList.AppendChain | include/FreeList.hpp:223-230 | links a chain after the output chain built so far, or makes it the output chain when that is empty |
| FreeLists.FreeList.LoneTurn | include/FreeList.hpp:192-202 | a last run without a partner is attached to the output unmerged, and the pass ends |
| FreeLists.FreeList.MergeTurn | include/FreeList.hpp:204-230 | two runs are cut, merged and attached, and the output so far is the pass specification's output up to the end of the pair |
| FreeLists.FreeList.SortPass | include/FreeList.hpp:170-235 | one pass with run length `w` relinks the range into `MergePass(s, w)` and returns its head and tail |
| FreeLists.FreeList.CountRange | include/FreeList.hpp:161-167 | counts the slots from `start` to `end` along the chain: the range's length |
| FreeLists.FreeList.Disconnect | include/FreeList.hpp:146-159 | the range is cut out between its neighbours, which are returned (SIZE_MAX at a list end); what is before, the range, and what is after are three separate chains |
| FreeLists.FreeList.SortChain | include/FreeList.hpp:169-235 | the passes relink the cut-out range into `SortedSlots` of the range, a permutation of it, touching only its slots |
| FreeLists.FreeList.Reconnect | include/FreeList.hpp:237-250 | the sorted range is linked to its neighbours, or becomes `head`/`tail` where there is none |
| FreeLists.FreeList.SortSpan | include/FreeList.hpp:146-250 | sorting positions `i` to `j-1` changes only that stretch of the list, into `SortedSlots` of it, keeping every slot's value and the invariant |
| FreeLists.FreeList.SortRange | include/FreeList.hpp:137-251 | `end()` as the start, an empty list or a one-element range leaves the list as it is; `end()` as the end means the tail; the range from start to end inclusive is replaced by its sorted order, and the rest of the list and every slot's value are kept |
| FreeLists.FreeList.Sort | include/FreeList.hpp:506-511 | the list becomes `SortedSlots` of the old list, a permutation of it, ordered under a strict weak order, and every slot keeps its value |
| Arena.EndsOfChains | include/FreeList.hpp:781-783 | `head`, `tail` and `freeHead` are SIZE_MAX exactly when their chain is empty |
| Arena.AllocateReused | include/FreeList.hpp:37-51 | reusing `freeHead` pops the first slot of the free chain and leaves the list's values unchanged |
| Arena.AllocateAppended | include/FreeList.hpp:37-51 | growing the arena adds one slot in no chain and leaves the list's values unchanged |
| Arena.LinkFirstCorrect | include/FreeList.hpp:530-544 | the head-linking code of `push_front` restores the invariant with the slot first and its value in front |
| Arena.LinkLastCorrect | include/FreeList.hpp:546-558 | the tail-linking code of `push_back` restores the invariant with the slot last and its value at the back |
| Arena.LinkBeforeCorrect | include/FreeList.hpp:640-669 | the linking code of `insert` puts the slot just before `live[k]` and its value at position `k`; `head` moves only when `live[k]` was first |
| Arena.RemoveCorrect | include/FreeList.hpp:70-92 | the code of `remove` joins the neighbours (or moves `head`/`tail`), pushes the slot onto the free chain, decrements `size_` and drops exactly that value |
| MergeSpec.MergedHead | include/FreeList.hpp:107-120 | the merge's first slot is the left head if its value goes strictly before the right head's, otherwise the right head |
| MergeSpec.MergedOrdered | include/FreeList.hpp:95-135 | merging two ordered chains gives an ordered chain |
| MergeSpec.MergedPermutes | include/FreeList.hpp:95-135 | the merge takes every slot of both chains exactly once |
| MergeSpec.MergeTieTakesRight | include/FreeList.hpp:107-117 | on equivalent heads the right head is taken first, and the merge goes on with the left chain and the rest of the right chain; `SortSwapsEqualPair` shows the instability that follows |
| MergeSpec.PassPermutes | include/FreeList.hpp:176-231 | a pass only reorders the slots of the range |
| MergeSpec.PassDoublesRuns | include/FreeList.hpp:176-231 | a pass over ordered runs of `w` leaves ordered runs of `2w` |
| MergeSpec.BottomUpOrdered | include/FreeList.hpp:170-235 | once runs of `w` are ordered, the remaining passes leave the range ordered |
| MergeSpec.BottomUpPermutes | include/FreeList.hpp:170-235 | all passes together only reorder the slots of the range |
| MergeSpec.SortedSlotsCorrect | include/FreeList.hpp:137-251 | the sort leaves a range ordered and holding the same slots |
| MergeSpec.SortsToOrdered | include/FreeList.hpp:506-511 | the order the sort leaves is ordered under a strict weak order |
| MergeSpec.SortsToPermutes | include/FreeList.hpp:506-511 | the order the sort leaves is a permutation of the range, whatever the comparator |
| MergeSpec.SortsToShort | include/FreeList.hpp:170 | a range of at most one slot has no pass and is left as it is |
| MergeSpec.SortPair | include/FreeList.hpp:170-235 | two slots keep their order only when the left value goes strictly before the right |
| MergeSpec.SortSwapsEqualPair | include/FreeList.hpp:506-511 | two equal integers are swapped by the sort, so sorting an already sorted list can reorder its slots |
| Ranges.DetachLinks | include/FreeList.hpp:146-159 | disconnecting a range leaves three chains (before, range, after) and changes links of list slots only |
| Ranges.ReattachLinks | include/FreeList.hpp:237-250 | linking the neighbours to the range's new ends gives one chain again |
| Ranges.RangeRelinked | include/FreeList.hpp:146-250 | linking a rearrangement of the cut-out range back in gives one chain `live[..i] + t + live[j..]` holding the same slots |
| Ranges.RangeSorted | include/FreeList.hpp:137-251 | after sorting a range and reconnecting it, the invariant holds for the new order, in which only the range has moved, `head`/`tail` move only where the range reached an end, and every slot keeps its value |
| Ranges.SortingStep | include/FreeList.hpp:170-235 | one pass keeps the outer loop's invariant with the run length doubled: the passes still to come give the same final order |

## Left out

- Allocation failure: the arena is a sequence that can grow to SIZE_MAX - 1 slots. Operations that allocate require `Room() > 0`: a free slot, or room to grow while SIZE_MAX still names no slot. A failed `std::vector` growth (`std::bad_alloc`) is not modelled.
- `reserve`, `capacity` and `shrink_to_fit` only change the vector's storage capacity, which the model does not have.
- Copy and move construction and assignment, `swap`, and the convenience constructors (count, count-and-value, iterator range, initializer list) are left out. They copy or exchange fields, or call `emplace_back` in a loop.
- `ConstIterator` duplicates `Iterator`. The reverse iterators are library adaptors over `--` and `++`.
- `sort(const_iterator, const_iterator)` (lines 513-524) calls `_end.prev()`, which the iterator class does not declare, so it cannot be instantiated. `SortRange` models `bottomUpMergeSortRange`, which it would call.
- Iterators hold the address of their list in the source. Here they are slot indices, so an iterator of another list, or a dangling iterator, cannot be expressed. Operations require their iterators to be `end()` or live slots of this list.
- `sort` takes a comparator. The model passes a total function `(T, T) -> bool`. Ordering is proved only when it is a strict weak order, as `std::less` is; the permutation and slot-identity results hold for any comparator.
- FreeLists.FreeList.Remove: requires that an index inside the arena be a live slot. The source would corrupt both chains when given a free slot, and no public operation does that.
- FreeLists.FreeList.EraseRange: requires that `first` not come after `last`, as the iterator range `[first, last)` demands. When it does, the source walks to `end()` and dereferences SIZE_MAX.
- FreeLists.FreeList.SortRange: requires that the end slot not come before the start slot. Otherwise the source's counting loop runs off the end of the range.
- FreeLists.FreeList.Front: requires a non-empty list, because the source indexes the arena with SIZE_MAX otherwise. The same holds for `Back` and `Get`, and for `Succ`, which requires a live slot because `++` on `end()` reads `nodes[SIZE_MAX]`.
- FreeLists.FreeList.SortChain: the run length `sublist_size`, doubled at line 170, is an unbounded integer here but a 64-bit `size_t` in the source. The two differ only for a range of more than 2^63 slots. There `sublist_size` reaches 2^63 while still below `range_size`, doubles to 0, and the C++ loop never ends, while the model's loop ends. The model's arena may grow to SIZE_MAX - 1 slots, so it admits such ranges. A real `std::vector<Node>` cannot hold them: `max_size()` is bounded by PTRDIFF_MAX / sizeof(Node), and a `Node` holds three 8-byte indices.
- Moving from the caller's value is not modelled. `allocateNode(U&&)` (lines 36-51) builds the node from `std::forward<T>(data)` rather than `std::forward<U>(data)`. So a non-const lvalue passed to `push_front`, `push_back` or `insert(it, value)`, or read by `*first++` in the range `insert`, is moved from and left in a valid but unspecified state. The model passes values and does not capture this side effect.
- FreeLists.FreeList.Find: the source compares values with `T`'s `operator==`; the model uses Dafny's equality on `T`. It therefore assumes `operator==` is an equivalence that agrees with value identity.
