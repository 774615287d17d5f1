# vector&lt;T&gt; — a verified model of a hand-written dynamic array

This project models the container `vector<T>` of `YuriyKuznetsov_vector.cpp`.
The container owns one raw buffer `pArray`. Its `arraySize` live elements fill
the prefix `[0, size)` of that buffer, and `arrayCapacity` counts the allocated
slots. Its operations are:

- four constructors: sized, initializer list, pointer range and copy;
- copy assignment and the destructor;
- the growth operations `reserve`, `push_back`, `emplace_back` and `push_front`;
- the positional mutators `insert`, the three `erase` overloads and `resize`;
- the accessors.

The model has three parts:

- `VectorSpec.dfy` (module `VectorSpec`) sees a container as a value `Vec(elems, cap)`: the live elements in order and the capacity. It has one function per operation, giving the state afterwards or the error thrown. The lemmas state what the container promises about those functions.
- `DynamicArray.dfy` (module `DynamicArray`) is the container itself. Class `Vector<T>` has fields `data: array<T>` (`pArray`), `size` and `capacity`, and its methods keep the source's loops. A zero-length array stands for `nullptr`. The `ensures` of each public mutator (`Reserve`, `PushBack`, `EmplaceBack`, `PushFront`, `Resize`, `Insert`, `EraseAt`, `ErasePtr`, `EraseRange`) says that `Model()` afterwards is what the matching `VectorSpec` function makes of `old(Model())`, and that an error leaves the container unchanged. Copy assignment is stated against `CopyAssign` of the source container, and a failed allocation leaves the receiver empty. `Set`, `Dispose` and `DestroyArray` state their new `Model()` directly. The loop helpers that write (`InsertBefore`, `ShiftRight`, `ShiftOver`, `CloseGap`) state what they leave in the buffer. The search loops (`FindInterior`, `LocateRange`) state the index they find.
- `AsWritten.dfy` (module `AsWritten`) models three defects exactly as the source is written, each with the input that exposes it (see Findings). `Scenarios.dfy` holds small client methods that derive concrete results from the contracts alone.

Conventions:

- A raw `T*` argument is a `Pos`: `Null`, or `Off(k)`, meaning `pArray + k` of the buffer it is compared with. `Addr(cap, k)` is `pArray + k`. It is `Null` when the capacity is 0, because then `pArray` is `nullptr`. As a result, `begin()` and `end()` of a container with no buffer are both null. An `Off(k)` with `k` outside `[0, size]` matches nothing.
- `T{}` (default construction) is an explicit argument `init`.
- `oom` says whether the allocation that this call would make fails (`malloc` returns `nullptr`). It appears only on operations that check `malloc`'s result.
- Errors are `InvalidRange`, `InvalidPointer`, `OutOfRange` and `OutOfMemory`. The source throws `std::out_of_range` for the first three and tells them apart only by the message text. `OutOfMemory` is `ErrorMemoryAlloc`.
- The range and copy constructors can throw. They are therefore static methods that return `Result<Vector<T>>`: a constructor that throws yields no object.

Two behaviours of the code worth stating:

- `push_front` reallocates to `cap + cap * (size / cap)` slots, or 1 when there is no buffer. `VectorSpec.FrontCapacityRule` proves that this gives 1 when there is no buffer, doubles a full buffer and keeps the capacity of a buffer that has room, so there is always room for the new element.
- `insert` at `end()` returns `pArray + arraySize` after the append, which is the new `end()` rather than the inserted element, and the model returns that.

## Model

| member | source | states |
|---|---|---|
| DynamicArray.Vector.Sized | YuriyKuznetsov_vector.cpp:65-76 | the sized constructor gives `n` default elements with size == capacity == n, in a fresh buffer (none when n == 0) |
| DynamicArray.Vector.FromList | YuriyKuznetsov_vector.cpp:78-88 | the initializer-list constructor holds the list in order, capacity == list length |
| DynamicArray.Vector.FromRange | YuriyKuznetsov_vector.cpp:90-120 | the range constructor fails with InvalidRange on a null pointer or begin == end, with OutOfMemory when allocation fails, and otherwise copies exactly `[begin, end)` with size == capacity == end - begin |
| DynamicArray.Vector.Copy | YuriyKuznetsov_vector.cpp:122-143 | the copy constructor gives the source's elements and capacity in a fresh buffer; it allocates nothing for capacity 0 and fails only when it must allocate and cannot |
| DynamicArray.Vector.CopyBuffer | YuriyKuznetsov_vector.cpp:371-383 | a fresh buffer of the requested size whose first `n` slots copy the source's (the element-wise copy loops) |
| DynamicArray.Vector.Assign | YuriyKuznetsov_vector.cpp:153-179 | self-assignment changes nothing, not even the buffer; otherwise the receiver gets the source's elements and capacity in a fresh buffer, and an allocation failure leaves it with size == capacity == 0; the source is unchanged |
| DynamicArray.Vector.Dispose | YuriyKuznetsov_vector.cpp:145-151 | the destructor leaves no elements and no buffer |
| DynamicArray.Vector.DestroyArray | YuriyKuznetsov_vector.cpp:396-404 | destroyArray drops all elements and the buffer and zeroes size and capacity |
| DynamicArray.Vector.Reserve | YuriyKuznetsov_vector.cpp:367-389 | reserve(n) is VectorSpec.Reserve: nothing changes when n <= capacity; otherwise capacity becomes n and the elements are kept, or OutOfMemory with nothing changed |
| DynamicArray.Vector.PushBack | YuriyKuznetsov_vector.cpp:181-193 | push_back is VectorSpec.PushBack: the elements become old ++ [x], and a full buffer is first regrown |
| DynamicArray.Vector.EmplaceBack | YuriyKuznetsov_vector.cpp:224-232 | emplace_back appends the element built from the arguments, with push_back's growth |
| DynamicArray.Vector.PushFront | YuriyKuznetsov_vector.cpp:195-222 | push_front on success always installs a fresh buffer of FrontCapacity slots holding [x] ++ old; on allocation failure nothing changes |
| DynamicArray.Vector.Resize | YuriyKuznetsov_vector.cpp:339-365 | resize is VectorSpec.Resize: no-op, prefix, or padding with default values, growing past capacity through reserve(count) |
| DynamicArray.Vector.Insert | YuriyKuznetsov_vector.cpp:234-264 | insert is VectorSpec.Insert: null or unmatched pointer fails with nothing changed, end() appends, begin() prepends, an interior index splices the value in; the buffer afterwards is the old one or a fresh one, never another container's |
| DynamicArray.Vector.FindInterior | YuriyKuznetsov_vector.cpp:246-252 | insert's search loop finds the interior index 1 <= i < size whose address is the pointer, or 0 when there is none |
| DynamicArray.Vector.InsertBefore | YuriyKuznetsov_vector.cpp:256-263 | insert's interior path: after resize(size + 1) the live elements are old[..i] ++ [x] ++ old[i..], with capacity size + 1 if the buffer was full; the buffer is the old one or a fresh one |
| DynamicArray.Vector.ShiftRight | YuriyKuznetsov_vector.cpp:259-262 | the top-down shift and the store leave old[..i] ++ [x] ++ old[i..size-1] in the live prefix |
| DynamicArray.Vector.EraseAt | YuriyKuznetsov_vector.cpp:266-278 | erase(i) is VectorSpec.EraseAt: OutOfRange for i >= size, otherwise old[..i] ++ old[i+1..] in the same buffer |
| DynamicArray.Vector.ErasePtr | YuriyKuznetsov_vector.cpp:280-305 | erase(ptr) is VectorSpec.ErasePtr: null, end() or no match fail with nothing changed; a match removes that element |
| DynamicArray.Vector.ShiftOver | YuriyKuznetsov_vector.cpp:287-302 | the one-pass loop of erase(ptr) writes nothing when no element matches, and otherwise closes the gap of the matching element |
| DynamicArray.Vector.EraseRange | YuriyKuznetsov_vector.cpp:307-337 | erase(b, e) is VectorSpec.EraseRange: fails on null or equal pointers or when e is not found after b; otherwise removes [b, e) |
| DynamicArray.Vector.LocateRange | YuriyKuznetsov_vector.cpp:311-325 | the search loop finds endIndex == e's index exactly when 0 <= b's index < e's index <= size in a real buffer, and beginIndex == b's index then |
| DynamicArray.Vector.CloseGap | YuriyKuznetsov_vector.cpp:326-334 | the shift loop leaves old[..bi] ++ old[ei..size] in the first size - (ei - bi) slots |
| DynamicArray.Vector.Begin | YuriyKuznetsov_vector.cpp:29 | begin() is null exactly when there is no buffer |
| DynamicArray.Vector.End | YuriyKuznetsov_vector.cpp:30-35 | end() is null when there is no buffer and pArray + size otherwise |
| DynamicArray.Vector.Size | YuriyKuznetsov_vector.cpp:52 | size() is the number of live elements |
| DynamicArray.Vector.Capacity | YuriyKuznetsov_vector.cpp:53 | capacity() is the capacity and is at least size() |
| DynamicArray.Vector.Empty | YuriyKuznetsov_vector.cpp:54 | empty() holds exactly when there are no live elements |
| DynamicArray.Vector.Front | YuriyKuznetsov_vector.cpp:47 | front() of a non-empty container is its first element |
| DynamicArray.Vector.Back | YuriyKuznetsov_vector.cpp:46 | back() of a non-empty container is its last element |
| DynamicArray.Vector.Get | YuriyKuznetsov_vector.cpp:49 | operator[](i), for i < size, reads element i |
| DynamicArray.Vector.Set | YuriyKuznetsov_vector.cpp:48 | writing through operator[](i), for i < size, replaces element i only |
| VectorSpec.FrontCapacityRule | YuriyKuznetsov_vector.cpp:196-199 | push_front's capacity formula is 1 with no buffer, 2*cap when full, cap otherwise, and so always at least size + 1 |
| VectorSpec.PushBackAppends | YuriyKuznetsov_vector.cpp:181-193 | push_back without allocation failure yields old ++ [x] and keeps the invariant; it keeps the capacity when there is room and grows a full buffer to GrowCapacity (double, or 1 for no buffer) |
| VectorSpec.PushBackFailsIff | YuriyKuznetsov_vector.cpp:181-184 | push_back fails exactly when it must reallocate and allocation fails, and then with OutOfMemory |
| VectorSpec.PushFrontPrepends | YuriyKuznetsov_vector.cpp:195-222 | push_front yields [x] ++ old, keeps the invariant and never lowers the capacity |
| VectorSpec.ReserveKeepsElements | YuriyKuznetsov_vector.cpp:367-389 | reserve fails exactly when n > capacity and allocation fails; otherwise elements are unchanged and capacity becomes max(capacity, n) |
| VectorSpec.ResizeSetsSize | YuriyKuznetsov_vector.cpp:339-365 | resize fails exactly when count > capacity and allocation fails; otherwise size == count, the old prefix is kept, new slots hold the default value, and the capacity never shrinks and becomes count when count exceeded it (reserve(count)) |
| VectorSpec.ResizeByOne | YuriyKuznetsov_vector.cpp:352-364 | resize(size + 1) keeps the capacity when there is room and reallocates to exactly size + 1 when full |
| VectorSpec.ResizeShrinkThenGrow | YuriyKuznetsov_vector.cpp:343-357 | shrinking to k and growing back gives old[..k] ++ default values, not the truncated values |
| VectorSpec.InsertSplices | YuriyKuznetsov_vector.cpp:234-264 | insert at any index 0..size of a container with a buffer yields old[..i] ++ [x] ++ old[i..], and returns position i, or the new end() when i == size |
| VectorSpec.InsertFailsIff | YuriyKuznetsov_vector.cpp:234-264 | insert fails with InvalidPointer exactly when the pointer is not the address of an index 0..size of a real buffer, and otherwise with OutOfMemory exactly when it must allocate and cannot: always at begin() of a non-empty container (push_front), only when full at end() or an interior index |
| VectorSpec.InsertThenEraseRestores | YuriyKuznetsov_vector.cpp:234-278 | insert at index i followed by erase(i) restores the original elements |
| VectorSpec.EraseThenInsertRestores | YuriyKuznetsov_vector.cpp:234-278 | erase(i) followed by inserting the erased value at i restores the original elements |
| VectorSpec.EraseAtRemovesOne | YuriyKuznetsov_vector.cpp:266-278 | erase(i) fails exactly for i >= size; otherwise one element is removed, the others keep their order, capacity is unchanged |
| VectorSpec.ErasePtrIsEraseAt | YuriyKuznetsov_vector.cpp:280-305 | erase(ptr) succeeds exactly on the address of a live element, and then equals erase of its index |
| VectorSpec.EraseRangeRemovesSpan | YuriyKuznetsov_vector.cpp:307-337 | erase(b, e) succeeds exactly for 0 <= bi < ei <= size; it removes exactly ei - bi elements, keeps the rest in order, and the removed span makes up the multiset difference |
| VectorSpec.EraseRangeOfOneIsEraseAt | YuriyKuznetsov_vector.cpp:307-337 | erasing the range [i, i+1) is the same as erase(i) |
| VectorSpec.FromRangeCopies | YuriyKuznetsov_vector.cpp:90-120 | the range constructor succeeds exactly on non-null begin < end without allocation failure, and element i equals begin[i] |
| VectorSpec.ApplyKeepsValid | YuriyKuznetsov_vector.cpp:56-59 | every operation, whether it succeeds or fails, keeps 0 <= size <= capacity |
| VectorSpec.RunKeepsValid | YuriyKuznetsov_vector.cpp:56-59 | capacity >= size holds after any sequence of operations |
| VectorSpec.GrowCapacity | YuriyKuznetsov_vector.cpp:182-184 | the capacity a full container grows to on push_back: the source's `arrayCapacity * 2` whenever there is a buffer, and in every case more than the old capacity (1 for no buffer, the correction of the first finding) |
| AsWritten.PushBackAsWritten | YuriyKuznetsov_vector.cpp:181-192 | push_back as written: when the element lands inside the buffer the result is valid and holds old ++ [x]; otherwise the write goes past the buffer |
| AsWritten.ResizeAsWritten | YuriyKuznetsov_vector.cpp:339-365 | resize as written: fails exactly when count exceeds both size and capacity and allocation fails; never shrinks the capacity; sets the size to count within the capacity, but leaves the elements as they were when growing beyond it |
| AsWritten.InsertInteriorAsWritten | YuriyKuznetsov_vector.cpp:256-263 | the interior insert as written: the prefix before i is kept and x is stored at i, but the size grows only when the buffer had room |
| AsWritten.PushBackAsWrittenOverflowsIff | YuriyKuznetsov_vector.cpp:181-192 | as written, push_back writes past the buffer exactly when the capacity is 0 |
| AsWritten.PushBackAsWrittenOnEmpty | YuriyKuznetsov_vector.cpp:181-192 | push_back on an empty container with no buffer: as written it writes past the buffer; corrected it yields [x] with capacity 1 |
| AsWritten.ResizeAsWrittenKeepsSize | YuriyKuznetsov_vector.cpp:359-364 | as written, growing past the capacity leaves size unchanged, while the corrected resize sets it to count |
| AsWritten.InsertInteriorAsWrittenDropsLast | YuriyKuznetsov_vector.cpp:256-263 | as written, an interior insert splices correctly when there is room, but on a full container overwrites the last element and keeps the size |
| AsWritten.InsertInteriorAsWrittenExample | YuriyKuznetsov_vector.cpp:256-263 | inserting 9 before index 1 of the full [1, 2] gives [1, 9] as written and [1, 9, 2] corrected |

## Findings

| source | as written | input that shows it | evidently intended | confidence | as-written member | corrected member |
|---|---|---|---|---|---|---|
| YuriyKuznetsov_vector.cpp:181-192 | a full container calls `reserve(arrayCapacity * 2)`, which does nothing when the capacity is 0, then writes at `pArray + arraySize` through `nullptr` (also `emplace_back`, lines 227-230) | `push_back(x)` on `vector<int>{}` | grow to at least one slot | high; not executed | AsWritten.PushBackAsWrittenOnEmpty | VectorSpec.PushBackAppends |
| YuriyKuznetsov_vector.cpp:359-364 | the branch that grows past the capacity never sets `arraySize = count` | `resize(3)` on `{1, 2}` (capacity 2) leaves size 2 | size == count, as in the branch at line 356 | high; not executed | AsWritten.ResizeAsWrittenKeepsSize | VectorSpec.ResizeSetsSize |
| YuriyKuznetsov_vector.cpp:256-263 | an interior insert on a full container goes through that resize, so the shift loop runs over the old size and overwrites the last element | `insert(begin() + 1, 9)` on `{1, 2}` gives `[1, 9]` | `[1, 9, 2]` | high; not executed | AsWritten.InsertInteriorAsWrittenExample | VectorSpec.InsertSplices |

## Left out

- The `isAbleToMemcpy` dispatch (lines 391-394) and its `memcpy` branches are not modelled: the model has only the element-wise copy loops. The two branches agree only for trivially copyable `T`. `isAbleToMemcpy` also accepts every standard-layout type, so `memcpy` bypasses the copy constructor and the destructor of types such as `shared_ptr`. An example is `vector<shared_ptr<X>>`: `push_back` (line 186), `reserve` (lines 376 and 385) and `push_front` (lines 205-207 and 218) copy the handles byte for byte and then destroy the originals, so the use counts go wrong. The model's elements are plain values, so it does not capture this.
- `malloc`, `free`, placement `new` and explicit `~T()` calls are not modelled. Allocation is a new Dafny array, and destruction is dropping elements from the live prefix. Destructor side effects are therefore invisible.
- The shrinking loop of `resize` starts at `count - 1`. It destroys one element that stays live, and when `count == 0` the index wraps around so nothing is destroyed. This is invisible at the level of element values, so it is not modelled.
- The sized and initializer-list constructors do not check `malloc`'s result. The model assumes their allocation succeeds.
- `operator=` calls `malloc(0)` for a source of capacity 0, and that call may return a non-null pointer. The model treats every buffer of capacity 0 as `nullptr`.
- A throwing constructor yields no object, so the range constructor's reset of size and capacity to 0 before it throws has no observable counterpart.
- Sizes, capacities and indices are unbounded naturals, not `size_t`. The model does not capture the wrap-around of `new_cap * sizeof(T)` in the `malloc` calls (lines 105, 128, 163, 200 and 371), where a huge `reserve` or `resize` could get a small buffer while recording the huge capacity. Nor does it capture the wrap-around of `arrayCapacity * MAKE_DOUBLE` (lines 183 and 228). The model promises the full number of slots.
- Raw address identity and iterator invalidation are out of scope. Positions are offsets into the current buffer, and a pointer into a buffer that has been replaced is not modelled.
- `ErrorMemoryAlloc`'s message string and `what()` are exception plumbing. The model uses the `Error` enumeration instead.
- `emplace_back`'s variadic perfect forwarding becomes one argument value plus the function that constructs the element from it.
- On an interior insert, the slot that `resize` default-constructs is overwritten by the shift before anyone can read it. The model therefore fills it with the inserted value instead of `T{}`.
- The range constructor requires `end` to be reachable from `begin`. Otherwise the source's counting loop never stops.
- Move construction and move assignment are not part of the source.
- `shared_ptr.cpp` and `unique_ptr.cpp` are not part of this model. They are ownership wrappers whose work is `delete` calls and console or file I/O, and the container treats them only as element types.
