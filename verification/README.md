# contiguous-object-pool, modelled in Dafny

A model of `ObjectStorage`, the contiguous object pool of `objects.h`, and of its
reference-counted handle `OHandle`.

- The store keeps one slot vector, an *arena*, per object type.
- Slot 0 of each arena is a sentinel hole.
- Every other slot holds either a live object or a hole. Holes are threaded into an
  intrusive free list that starts at the sentinel and ends at index 0.
- Each slot carries a 16-bit count of the live handles that refer to it.
- A handle is an index into one arena; index 0 is the empty handle. Handles register
  a reference when they are built, copied, moved or assigned, and deregister one when
  they are destroyed or overwritten.
- `Create` reuses the head of the free list, or appends a slot when the list is empty.
- `Clean` sweeps every arena in ascending order. It turns each object whose counter is 0
  into a hole and pushes that hole onto the front of the free list, so the highest
  reclaimed index becomes the next slot `Create` reuses.

Modules:

- `Slots`: one slot (`Hole`/`Object` content plus the counter) and the counter's 16-bit
  wrap-around arithmetic.
- `Arenas`: one arena as a value.
  - Its invariant `Valid(vec, list)`: `list` is the chain of hole indices from the
    sentinel; it is distinct, in bounds, correctly linked and lists every hole; every
    counter fits in 16 bits.
  - The creation, registration and sweep functions, and the lemmas about them.
- `Handles`: the handle value, its equality and its order.
- `Storage`: the class `Store`, whose fields are the arenas (`data`) and three ghost
  fields: the free lists (`free`), the multiset of live handles (`live`), and a per-slot
  `offset`.
  - The methods update these fields in place and are proved against the functions of
    `Arenas`.
  - The handle lifecycle (construction, copy, move, assignment, destruction) is
    modelled as explicit `Store` methods. Each one adjusts the target slot's counter and
    adds the handle to `live` or removes it. Destroying a handle requires that it is
    live, so a handle cannot be destroyed twice.
  - The store's invariant ties every counter to the handles: modulo 2^16, a slot's
    counter is its live handles plus its offset.
  - The offset is the references the store put into the counter itself, which no
    handle will give back. It is 0 for an appended slot. For a slot reused as written,
    it is whatever brings the counter to the 1 that `Create` sets.
- `Scenarios`: the repository's test fixture and tests, replayed against the store's
  contracts, plus end-to-end scenarios for the two findings below.

The store's type list becomes an arena index (`kind`), and every arena holds values of
one payload type `T`.

The source disagrees with itself about how many references a reused slot starts with.
The comment at objects.h:239 and the test at tests/test.cpp:78 both expect a new object
to have one reference. The reuse path sets the counter to 1, but the handle constructor
at objects.h:74-76 then registers a second one (see Findings). The model follows the
code in `Create` and states the intended behaviour separately in `CreateCorrected`.

## Model

| member | source | states |
|---|---|---|
| Slots.Inc16 | objects.h:290 | `references++` on a `uint16_t`: the result is below 2^16; it is one more when that fits and 0 when it overflows |
| Slots.Dec16 | objects.h:300 | `references--` on a `uint16_t`: the result is below 2^16; it is one less for a positive counter and 65535 for 0 |
| Slots.IncDecInverse | objects.h:290 | for any 16-bit counter, an increment followed by a decrement restores it, and so does the reverse order, across the wrap-around |
| Slots.CounterTracks | objects.h:285-301 | a 16-bit counter follows a true count modulo 2^16: incrementing the reduced count gives the reduced successor, and decrementing it gives the reduced predecessor of a positive count |
| Slots.Slot.IsObject | objects.h:40 | a slot is an object exactly when its content is the `Object` alternative |
| Slots.Slot.GetHole | objects.h:27-29 | yields a link exactly when the slot is a hole, and the link is the hole's `next_hole` |
| Slots.Slot.NextHole | objects.h:32-37 | for a slot known to be a hole, returns its `next_hole` |
| Slots.Slot.GetObject | objects.h:40-45 | yields an object exactly when the slot holds one, and it is the stored object |
| Arenas.EmptyArena | objects.h:176-178 | a new arena is the sentinel alone, with capacity 0, an empty free list and the invariant holding |
| Arenas.FreeListUnique | objects.h:14-17 | a vector determines its free list: two lists that are both well-linked chains from the sentinel are equal |
| Arenas.FreeListBound | objects.h:186-188 | a well-formed free list never holds more entries than the arena's capacity |
| Arenas.IncrementedSpec | objects.h:285-291 | registration keeps the invariant and the free list, changes only the slot's counter and keeps its content; the counter grows by one when it fits |
| Arenas.DecrementedSpec | objects.h:295-301 | deregistration keeps the invariant and the free list, changes only the slot's counter and keeps its content; the counter shrinks by one when positive |
| Arenas.IncrementThenDecrement | objects.h:285-301 | registering and then deregistering the same slot gives back the original vector |
| Arenas.Allocate | objects.h:212-240 | the store's half of Create: append a slot with counter 0 when the sentinel's link is 0, otherwise relink the sentinel to the head hole's successor and put the object there with counter 1; the returned index lies inside the new vector |
| Arenas.Created | objects.h:206-245 | Create as written: `Allocate`, then the returned handle's constructor registers one reference on the new index |
| Arenas.AllocateValid | objects.h:212-240 | the store's half of Create keeps the invariant, and the free list loses its head if it had one |
| Arenas.ReuseValid | objects.h:229-240 | filling the head hole with an object whose counter fits, and relinking the sentinel past it, keeps the arena invariant with the rest of the free list |
| Arenas.ReuseFreeList | objects.h:229-237 | after that reuse, the rest of the list is a well-formed free list of the arena |
| Arenas.ReuseListed | objects.h:229-237 | after that reuse, every hole other than the sentinel is still on the rest of the list |
| Arenas.CreateAppends | objects.h:215-227 | with no hole, Create appends exactly one slot, at the old length (never 0); the capacity grows by one; earlier slots are untouched; the slot holds the value with counter 1; the invariant holds with the same empty list |
| Arenas.CreateReuses | objects.h:229-243 | with a hole, Create takes the list head h (never 0) and links the sentinel to h's successor; the length is unchanged and every other slot untouched; h holds the value with counter 2; the invariant holds with the list minus h |
| Arenas.CreateAll | tests/test.cpp:36-43 | with nothing freed, successive Creates append at consecutive indices after the existing slots, each value with counter 1, keeping the invariant with an empty list |
| Arenas.Step | objects.h:261-267 | one step of the sweep: a slot holding an object with counter 0 becomes a hole linked to the sentinel's old successor, and the sentinel links to it; the length and the sentinel hole are kept |
| Arenas.SweepFrom | objects.h:260-269 | the sweep from slot i to the end, one `Step` per slot in ascending order; the length and the sentinel hole are kept |
| Arenas.Swept | objects.h:258-271 | one arena after `Clean`: the sweep from slot 0 |
| Arenas.SweptCounters | objects.h:258-271 | the sweep keeps the length and every counter |
| Arenas.SweepKeeps | objects.h:261 | a slot with a positive counter is not reclaimed and comes out of the sweep unchanged |
| Arenas.SweepReclaims | objects.h:261-267 | an object slot with counter 0 is reclaimed and comes out of the sweep as a hole |
| Arenas.ReclaimedFromSpec | objects.h:258-271 | the reclaimed list holds exactly the object slots with counter 0, each once, in strictly descending index order |
| Arenas.SweepFromValid | objects.h:258-271 | the sweep from slot i on keeps the invariant, putting the indices it reclaims (highest first) in front of the old free list |
| Arenas.SweepSpec | objects.h:258-271 | one arena's sweep keeps the length and capacity. Exactly the slots holding an object with counter 0 become holes; every other slot and every counter is unchanged. The new free list is those indices in descending order followed by the old list. The invariant holds |
| Arenas.SweepThenReuse | objects.h:212-243 | after a sweep that reclaims something, the next Create reuses the highest reclaimed index (not a fresh one) without growing the arena, and the slot then holds the new value |
| Arenas.ReuseLeaks | objects.h:240 | as written: an object created in a reused slot, once its only handle is released, has counter 1, is not reclaimable, and survives the sweep with its value |
| Arenas.AllocateCorrectedValid | objects.h:229-243 | corrected Create: the reused or appended slot starts at counter 0, its index is never 0, every other slot is unchanged, and the invariant holds with the list minus its head |
| Arenas.CorrectedCreateReclaimable | objects.h:229-243 | corrected Create: the new object has counter 1 on both paths and the invariant holds; once its only handle is released, the counter is 0 and the next sweep reclaims the slot |
| Handles.Empty | objects.h:70 | the default handle has index 0 |
| Handles.Equal | objects.h:154-156 | `operator==`: true exactly when the indices are equal, whatever arenas the handles point into |
| Handles.Less | objects.h:159-161 | `operator<`: true exactly when the first index is smaller |
| Handles.IndexOrder | objects.h:154-161 | `==` and `<` compare indices only: an equivalence and a strict order, exactly one of a<b, a==b, b<a holds, and handles with the same index are equal |
| Storage.RegisteredSpec | objects.h:84-91 | a copy or move of a non-empty handle adds one to its slot's counter and touches nothing else; for the empty handle nothing changes; the invariant is kept |
| Storage.DeregisteredSpec | objects.h:79-81 | destroying a non-empty handle takes one from its slot's counter and touches nothing else; for the empty handle nothing changes; the invariant is kept |
| Storage.MoveThenDropSource | objects.h:110-117 | a move (which registers like a copy) followed by destroying the moved-from handle (which deregisters) leaves every counter as it was |
| Storage.WithHandle | objects.h:74-76 | a non-empty handle that starts referring to its slot is counted once more, and no other handle's count changes; the empty handle is not counted |
| Storage.WithoutHandle | objects.h:79-81 | a live handle that stops referring to its slot is counted once less, and no other handle's count changes |
| Storage.ReuseOffset | objects.h:240 | the store's own reference on a slot reused as written: below 2^16, it brings the handles still naming the slot up to the counter 1 the store sets; it is 1 when no handle names the slot |
| Storage.CorrectedOffset | objects.h:229-243 | the same for the corrected reuse: it brings the handles still naming the slot to counter 0, and is 0 when no handle names the slot |
| Storage.RegisterAccounted | objects.h:285-291 | registering a handle counts it as live and keeps every counter equal, modulo 2^16, to its live handles plus its offset |
| Storage.DeregisterAccounted | objects.h:295-301 | deregistering a live handle names an existing slot, stops counting the handle, and keeps the accounting |
| Storage.NoLiveBeyond | objects.h:215-227 | no live handle names the slot one past the end of an arena, so a slot appended there starts with no handle on it |
| Storage.AllocatedAccounted | objects.h:212-240 | placing an object in a reused or appended slot keeps the accounting when its counter is its live handles plus the new offset and no other counter changes |
| Storage.AllocationOwed | objects.h:212-240 | allocation as written keeps the accounting: an appended slot owes nothing, and a reused slot owes `ReuseOffset` of the handles still naming it |
| Storage.CorrectedAllocationOwed | objects.h:229-243 | corrected allocation keeps the accounting: a reused slot owes `CorrectedOffset` of the handles still naming it |
| Storage.AllocateAccounted | objects.h:206-240 | allocation as written keeps every arena valid, with the free list losing its head, and keeps the accounting with the new slot's offset |
| Storage.AllocateCorrectedAccounted | objects.h:229-243 | the same for the corrected allocation |
| Storage.SweptAllAccounted | objects.h:258-271 | sweeping keeps every counter, so it keeps the accounting |
| Storage.CounterOf | objects.h:23 | under the accounting, a slot's counter is exactly its live handles plus its offset when that sum is below 2^16, and 0 when the sum is exactly 2^16 |
| Storage.LiveObjectsSurvive | objects.h:258-271 | a slot with at least one live handle, whose live handles plus offset stay below 2^16, has a positive counter, is not reclaimed, and comes out of the sweep unchanged |
| Storage.LiveSlotsSurvive | objects.h:258-271 | every such slot of every arena survives the sweep unchanged |
| Storage.WrapReclaimsLive | objects.h:290 | as written, an object whose live handles plus offset reach exactly 2^16 has counter 0 although a live handle names it, and the sweep reclaims it and turns it into a hole |
| Storage.RegisterChecked | objects.h:285-291 | registration as evidently intended: refused exactly when the counter is already 65535, otherwise the counter incremented |
| Storage.ExactLiveSurvive | objects.h:258-271 | with no wrap-around, every slot a live handle names survives the sweep |
| Storage.CheckedRegisterExact | objects.h:285-291 | a registration that is not refused keeps every slot's live handles plus offset below 2^16 |
| Storage.CheckedRegisterKeepsLive | objects.h:285-291 | checked registration is refused only when the slot's live handles plus offset are already 65535. Otherwise the handle is counted, every invariant is kept, and every slot a live handle names survives the next sweep |
| Storage.Store.constructor | objects.h:176-178 | every arena of a new store is the sentinel alone, with an empty free list, no live handle and offset 0 |
| Storage.Store.Capacity | objects.h:182-184 | the capacity is the arena length minus the sentinel, and never less than the number of free slots |
| Storage.Store.FreeCapacity | objects.h:188-202 | walking the links from the sentinel counts exactly the entries of the free list |
| Storage.Store.Get | objects.h:249-255 | yields the object exactly when the handle's slot holds one; never for index 0 |
| Storage.Store.GetNumReferences | objects.h:275-281 | the slot's counter, always below 2^16, which is the slot's live handles plus its offset modulo 2^16 |
| Storage.Store.NumReferences | objects.h:136-141 | 0 for the empty handle, otherwise the counter of its slot |
| Storage.Store.Deref | objects.h:144-151 | nothing for the empty handle; otherwise the same answer as `Get` |
| Storage.Store.Register | objects.h:285-291 | the store afterwards is `Incremented` on the handle's slot, the handle is counted as live, and the free lists, the offsets and the invariant are kept |
| Storage.Store.Deregister | objects.h:295-301 | only a live handle deregisters. The store afterwards is `Decremented` on the handle's slot, the handle is no longer counted as live, and the free lists, the offsets and the invariant are kept |
| Storage.Store.Acquire | objects.h:74-76 | the handle built from a store index registers unconditionally and becomes live |
| Storage.Store.Place | objects.h:207-240 | the store's half of Create, in place: the arena becomes `Allocate` of the old one, the free list loses its head, no other arena changes, and the new slot gets offset 0 when appended or `ReuseOffset` when reused |
| Storage.Store.PlaceCorrected | objects.h:229-240 | the same with `AllocateCorrected`, and offset `CorrectedOffset` when reused |
| Storage.Store.Create | objects.h:206-245 | returns a non-empty handle of the kind. Its index is the old length when the free list was empty, otherwise the old head. The arena grows only in the first case. The handle dereferences to the value. The counter is 1 when appended and 2 when reused. Every other slot and arena is unchanged, the free list loses its head, and the result equals `Created`. The new handle becomes live, and the slot's offset is 0 when appended and `ReuseOffset` when reused |
| Storage.Store.CreateCorrected | objects.h:229-243 | corrected Create: the same index and free list as `Create`, but the new slot has counter 1 on both paths, the new handle is live, and a reused slot's offset is `CorrectedOffset` |
| Storage.Store.Drop | objects.h:79-81 | the destructor of a live handle deregisters it and stops counting it as live; the empty handle leaves the store unchanged |
| Storage.Store.Copy | objects.h:84-91 | the copy has the same index and kind, registers unless empty, and becomes live |
| Storage.Store.Move | objects.h:110-117 | move construction behaves like a copy: it registers and becomes live, and the source keeps its index and stays live |
| Storage.Store.Assign | objects.h:94-107 | copy assignment deregisters the old target, which must be live, then registers the new one; the live handles lose the old value and gain the new one; empty handles take no part |
| Storage.Store.MoveAssign | objects.h:120-133 | move assignment does the same as copy assignment, and the right-hand side is left as it was |
| Storage.Store.SweepArena | objects.h:259-269 | the in-place ascending pass over one arena leaves exactly the swept vector `Swept` of the old one, and every other arena unchanged |
| Storage.Store.CleanArena | objects.h:258-271 | the sweep of one arena leaves the swept vector, with the reclaimed indices pushed in front of its free list, and every arena valid |
| Storage.Store.Clean | objects.h:258-271 | every arena is swept independently, and the invariant is kept. The live handles and offsets do not change. Every slot with at least one live handle, whose live handles plus offset stay below 2^16, is left as it was |
| Scenarios.Fixture | tests/test.cpp:36-43 | three kinds with `n` creations each, round robin: handle j of each kind has index j+1, every slot holds its value with counter 1, no arena has a hole, and exactly the kept handles are live |
| Scenarios.InitialCapacities | tests/test.cpp:47-57 | after the fixture every capacity is `n` and every free capacity is 0 |
| Scenarios.CapacitiesAfterDeletions | tests/test.cpp:59-75 | destroying the last handle of kind 0 and cleaning leaves all capacities at `n`, with free capacities 1, 0, 0 |
| Scenarios.NumberOfReferences | tests/test.cpp:77-86 | a fixture handle reports 1 reference and 2 after a copy. Beyond the test, it reports 1 again once the copy is destroyed, as the copy's destructor does at the end of the test's scope |
| Scenarios.ReleaseReused | objects.h:229-243 | as written, a reused slot reports 2 references and survives a second clean after its handle is destroyed (0 free); corrected, it reports 1 and is freed again (1 free) |
| Scenarios.ReleaseLast | tests/test.cpp:59-70 | destroying the fixture's last handle of kind 0 and cleaning frees exactly slot `n` of kind 0, keeps the objects before it, and leaves the other kinds with `n` objects and no free slot |
| Scenarios.CopiedToWrap | objects.h:84-91 | one object and 2^16 - 1 copies of its handle: 2^16 handles are live on the slot, and its counter has wrapped round to 0 |
| Scenarios.CopiesWrapAround | objects.h:290 | with those 2^16 live handles, `Clean` reclaims the object, and dereferencing a handle finds nothing |
| Scenarios.EmptyHandleIsInert | objects.h:136-151 | the empty handle reports 0 references and no object, and copying, moving or destroying it changes no counter |

## Left out

- The variadic type list and `std::tuple` dispatch (`typelist.h`) are left out. Object types are arena indices (`kind`), and every arena stores one payload type `T`. Calling a store operation on a type the store does not hold is a compile error in the source and is not modelled.
- `_hasChanged` is left out. `Create` sets it and nothing reads it.
- Each handle's pointer to its store is left out, including the null store of a default handle. A handle is only ever used with the store passed to the method. Dangling handles after the store is destroyed are not modelled.
- C++ object lifetimes are modelled as explicit calls: destructor runs, copy elision, temporaries and return-value moves. Each lifecycle event is a `Store` method, and a sequence of such calls stands for the program's sequence of events.
- Vector reallocation, raw pointers returned by `Get`/`gObject`/`gHole` that may dangle, and allocation failure are left out. `Get` returns the object's value, and `gHole` returns the hole's link rather than a mutable pointer.
- Storage.Store.Create: indices are unbounded naturals. The `uint32_t` truncation of `vec.size() - 1` (beyond 2^32 slots) is not modelled. Neither is `free_capacity`'s `uint32_t` count, nor `Clean`'s `int` counter (objects.h:260), which is stored into a `uint32_t` `next_hole` (objects.h:266).
- The widening of the counter to `uint32_t` by `GetNumReferences` and to `size_t` by `num_references` is left out. Both give the same number, so nothing is lost.
- Construction of the payload from constructor arguments (`T(args...)`) is left out. `Create` takes the constructed value.
- Storage.RegisterChecked: the corrected registration is stated on values, with the lemmas beside it. The `Store` methods keep the unchecked `Register` as written, so their contracts describe the source, wrap-around included.
- Concurrency is left out. The store is not thread-safe, and the model is sequential.

## Findings

| source | as written | input that shows it | evidently intended | confidence | as-written member | corrected member |
|---|---|---|---|---|---|---|
| objects.h:23 with objects.h:290 | the counter is a `uint16_t` and registration increments it unchecked, so 2^16 live handles on one object bring its counter back to 0 | one object created, its handle copied 65535 times with every copy kept, then `Clean`: the object is turned into a hole while 65536 handles still name it | registration refuses, or otherwise never wraps, a counter already at 65535, so a slot with a live handle always has a positive counter and survives `Clean` | not executed | Storage.WrapReclaimsLive | Storage.CheckedRegisterKeepsLive |
| objects.h:240 with objects.h:74-76 | the reuse path sets the slot's counter to 1, and the returned handle's constructor registers once more, so a reused object starts at counter 2 (the append path starts at 0 and ends at 1) | one object created, its handle destroyed, `Clean`, a second `Create` (reusing slot 1), that handle destroyed, `Clean`: the counter is 1, the slot is never reclaimed and `free_capacity` stays 0 | a reused slot starts at counter 0 like an appended one, so that the new handle is its only reference and the slot is reclaimed once the handle is gone | not executed | Arenas.ReuseLeaks | Arenas.CorrectedCreateReclaimable |
