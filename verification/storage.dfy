/** The object store: one arena per object kind, the sole mutator of slots and
    counters. Handle lifecycle events (construction, copy, move, assignment,
    destruction) are explicit methods here, each adjusting the target's counter. */
module Storage {
  import opened Slots
  import opened Arenas
  import opened Handles

  /** Every arena is valid with its free list. */
  ghost predicate AllValid<T>(data: seq<seq<Slot<T>>>, free: seq<seq<nat>>) {
    |free| == |data| && forall k :: 0 <= k < |data| ==> Arenas.Valid(data[k], free[k])
  }

  /** The handle names an existing slot. */
  ghost predicate Targets<T>(data: seq<seq<Slot<T>>>, h: Handle) {
    h.kind < |data| && h.index < |data[h.kind]|
  }

  /** A handle the store may see: the empty handle, or one naming an existing slot. */
  ghost predicate Bound<T>(data: seq<seq<Slot<T>>>, h: Handle) {
    h.index > 0 ==> Targets(data, h)
  }

  /** The counters after a handle registers itself: the empty handle changes nothing. */
  function Registered<T>(data: seq<seq<Slot<T>>>, h: Handle): seq<seq<Slot<T>>>
    requires Bound(data, h)
  {
    if h.index == 0 then data else data[h.kind := Incremented(data[h.kind], h.index)]
  }

  /** The counters after a handle deregisters itself: the empty handle changes nothing. */
  function Deregistered<T>(data: seq<seq<Slot<T>>>, h: Handle): seq<seq<Slot<T>>>
    requires Bound(data, h)
  {
    if h.index == 0 then data else data[h.kind := Decremented(data[h.kind], h.index)]
  }

  /** A handle event on a non-empty handle adds one to its slot's counter and touches
      nothing else; on the empty handle it changes nothing; the invariant is kept. */
  lemma RegisteredSpec<T>(data: seq<seq<Slot<T>>>, free: seq<seq<nat>>, h: Handle)
    requires AllValid(data, free) && Bound(data, h)
    ensures AllValid(Registered(data, h), free)
    ensures |Registered(data, h)| == |data|
    ensures h.index == 0 ==> Registered(data, h) == data
    ensures forall k :: 0 <= k < |data| ==> |Registered(data, h)[k]| == |data[k]|
    ensures forall k, i :: 0 <= k < |data| && 0 <= i < |data[k]| && (k != h.kind || i != h.index) ==>
      Registered(data, h)[k][i] == data[k][i]
    ensures h.index > 0 ==>
      && Registered(data, h)[h.kind][h.index].content == data[h.kind][h.index].content
      && Registered(data, h)[h.kind][h.index].references == Inc16(data[h.kind][h.index].references)
  {
    if h.index > 0 {
      IncrementedSpec(data[h.kind], free[h.kind], h.index);
    }
  }

  /** Destroying a non-empty handle takes one from its slot's counter and touches
      nothing else; the empty handle changes nothing; the invariant is kept. */
  lemma DeregisteredSpec<T>(data: seq<seq<Slot<T>>>, free: seq<seq<nat>>, h: Handle)
    requires AllValid(data, free) && Bound(data, h)
    ensures AllValid(Deregistered(data, h), free)
    ensures |Deregistered(data, h)| == |data|
    ensures h.index == 0 ==> Deregistered(data, h) == data
    ensures forall k :: 0 <= k < |data| ==> |Deregistered(data, h)[k]| == |data[k]|
    ensures forall k, i :: 0 <= k < |data| && 0 <= i < |data[k]| && (k != h.kind || i != h.index) ==>
      Deregistered(data, h)[k][i] == data[k][i]
    ensures h.index > 0 ==>
      && Deregistered(data, h)[h.kind][h.index].content == data[h.kind][h.index].content
      && Deregistered(data, h)[h.kind][h.index].references == Dec16(data[h.kind][h.index].references)
  {
    if h.index > 0 {
      DecrementedSpec(data[h.kind], free[h.kind], h.index);
    }
  }

  /** A move (which registers like a copy) followed by the destruction of the moved-from
      handle (which deregisters) leaves every counter as it was. */
  lemma MoveThenDropSource<T>(data: seq<seq<Slot<T>>>, free: seq<seq<nat>>, h: Handle)
    requires AllValid(data, free) && Bound(data, h)
    ensures Bound(Registered(data, h), h)
    ensures Deregistered(Registered(data, h), h) == data
  {
    RegisteredSpec(data, free, h);
    if h.index > 0 {
      IncrementThenDecrement(data[h.kind], free[h.kind], h.index);
    }
  }

  // ---------------------------------------------------------------------------
  // Reference accounting: which handles are live, and what their counters owe them.

  /** The live handles after `h` starts referring to its slot: the empty handle is not counted. */
  function WithHandle(live: multiset<Handle>, h: Handle): (r: multiset<Handle>)
    ensures h.index > 0 ==> r[h] == live[h] + 1
    ensures forall g :: g != h || h.index == 0 ==> r[g] == live[g]
  {
    if h.index > 0 then live + multiset{h} else live
  }

  /** The live handles after `h` stops referring to its slot. */
  function WithoutHandle(live: multiset<Handle>, h: Handle): (r: multiset<Handle>)
    ensures h.index > 0 && h in live ==> r[h] == live[h] - 1
    ensures forall g :: g != h || h.index == 0 ==> r[g] == live[g]
  {
    if h.index > 0 then live - multiset{h} else live
  }

  /** Each live handle is non-empty and names an existing slot, and the counter of every
      slot other than the sentinel is, modulo 2^16, the number of live handles on it plus
      the slot's offset: the references the store itself put there that no handle will
      ever give back. */
  ghost predicate Accounted<T>(data: seq<seq<Slot<T>>>, live: multiset<Handle>, offset: seq<seq<nat>>) {
    && |offset| == |data|
    && (forall k :: 0 <= k < |data| ==> |offset[k]| == |data[k]|)
    && (forall h {:trigger live[h]} :: h in live ==> h.index > 0 && Targets(data, h))
    && (forall k, i {:trigger data[k][i]} :: 0 <= k < |data| && 0 < i < |data[k]| ==>
          && offset[k][i] < RefModulus
          && data[k][i].references == (live[Handle(k, i)] + offset[k][i]) % RefModulus)
  }

  /** The offsets of an arena after slot `i` is given offset `e`; a slot past the end is appended. */
  function SetOffset(offsets: seq<nat>, i: nat, e: nat): (r: seq<nat>)
    ensures i < |offsets| ==> r == offsets[i := e]
    ensures i >= |offsets| ==> r == offsets + [e]
  {
    if i < |offsets| then offsets[i := e] else offsets + [e]
  }

  /** The offset of a reused slot as written: the store sets the counter to 1 whatever
      handles still name the slot, so with no such handle the slot owes one reference. */
  function ReuseOffset(dangling: nat): (e: nat)
    ensures e < RefModulus && (dangling + e) % RefModulus == 1
    ensures dangling == 0 ==> e == 1
  {
    (RefModulus + 1 - dangling % RefModulus) % RefModulus
  }

  /** The offset of a reused slot as evidently intended: counter 0, so with no handle
      still naming the slot it owes nothing. */
  function CorrectedOffset(dangling: nat): (e: nat)
    ensures e < RefModulus && (dangling + e) % RefModulus == 0
    ensures dangling == 0 ==> e == 0
  {
    (RefModulus - dangling % RefModulus) % RefModulus
  }

  /** Registering a handle adds it to the live handles and keeps the accounting. */
  lemma RegisterAccounted<T>(data: seq<seq<Slot<T>>>, live: multiset<Handle>, offset: seq<seq<nat>>, h: Handle)
    requires Accounted(data, live, offset) && Targets(data, h)
    ensures Accounted(data[h.kind := Incremented(data[h.kind], h.index)], WithHandle(live, h), offset)
  {
    var data': seq<seq<Slot<T>>> := data[h.kind := Incremented(data[h.kind], h.index)];
    var live' := WithHandle(live, h);
    if h.index > 0 {
      CounterTracks(live[h] + offset[h.kind][h.index]);
      assert h == Handle(h.kind, h.index);
    }
    forall k, i | 0 <= k < |data'| && 0 < i < |data'[k]|
      ensures data'[k][i].references == (live'[Handle(k, i)] + offset[k][i]) % RefModulus
    {
      if k == h.kind && i == h.index {
        CounterTracks(live[h] + offset[k][i]);
      }
    }
  }

  /** Deregistering a live handle removes it from the live handles and keeps the accounting. */
  lemma DeregisterAccounted<T>(data: seq<seq<Slot<T>>>, live: multiset<Handle>, offset: seq<seq<nat>>, h: Handle)
    requires Accounted(data, live, offset) && h in live
    ensures Targets(data, h)
    ensures Accounted(data[h.kind := Decremented(data[h.kind], h.index)], WithoutHandle(live, h), offset)
  {
    var data': seq<seq<Slot<T>>> := data[h.kind := Decremented(data[h.kind], h.index)];
    var live' := WithoutHandle(live, h);
    forall k, i | 0 <= k < |data'| && 0 < i < |data'[k]|
      ensures data'[k][i].references == (live'[Handle(k, i)] + offset[k][i]) % RefModulus
    {
      if k == h.kind && i == h.index {
        assert h == Handle(k, i);
        CounterTracks(live[h] + offset[k][i]);
      }
    }
  }

  /** No live handle names the slot one past the end of an arena. */
  lemma NoLiveBeyond<T>(data: seq<seq<Slot<T>>>, live: multiset<Handle>, offset: seq<seq<nat>>, k: nat)
    requires Accounted(data, live, offset) && k < |data|
    ensures live[Handle(k, |data[k]|)] == 0
  {
    assert Handle(k, |data[k]|) !in live;
  }

  /** Placing an object at slot `i` of arena `k` (reused, or appended at the end) with a
      counter that is its live handles plus offset `e` keeps the accounting, provided no
      other counter changes. */
  lemma AllocatedAccounted<T>(data: seq<seq<Slot<T>>>, live: multiset<Handle>, offset: seq<seq<nat>>,
                              k: nat, w: seq<Slot<T>>, i: nat, e: nat)
    requires Accounted(data, live, offset) && k < |data|
    requires 0 < i < |w| && (|w| == |data[k]| || (|w| == |data[k]| + 1 && i == |data[k]|))
    requires forall j :: 0 < j < |data[k]| && j != i ==> w[j].references == data[k][j].references
    requires e < RefModulus && w[i].references == (live[Handle(k, i)] + e) % RefModulus
    ensures Accounted(data[k := w], live, offset[k := SetOffset(offset[k], i, e)])
  {
    var data': seq<seq<Slot<T>>> := data[k := w];
    var offset' := offset[k := SetOffset(offset[k], i, e)];
    forall h | h in live
      ensures h.index > 0 && Targets(data', h)
    {
    }
    forall k', j | 0 <= k' < |data'| && 0 < j < |data'[k']|
      ensures offset'[k'][j] < RefModulus
      ensures data'[k'][j].references == (live[Handle(k', j)] + offset'[k'][j]) % RefModulus
    {
      if k' != k || j != i {
        assert j < |data[k']|;
        assert data[k'][j].references == (live[Handle(k', j)] + offset[k'][j]) % RefModulus;
      }
    }
  }

  /** Replacing one arena and its free list by a valid pair keeps every arena valid. */
  lemma ArenaReplacedValid<T>(data: seq<seq<Slot<T>>>, free: seq<seq<nat>>, k: nat, w: seq<Slot<T>>, list: seq<nat>)
    requires AllValid(data, free) && k < |data| && Arenas.Valid(w, list)
    ensures AllValid(data[k := w], free[k := list])
  {
  }

  /** Allocation as written keeps the accounting: the new slot is owed nothing when
      appended, and the store's own reference (offset `ReuseOffset` of the handles still
      naming it) when the head hole is reused. */
  lemma AllocationOwed<T>(data: seq<seq<Slot<T>>>, live: multiset<Handle>, offset: seq<seq<nat>>, k: nat, v: T)
    requires Accounted(data, live, offset) && k < |data| && CanAllocate(data[k])
    ensures var (w, i) := Allocate(data[k], v);
      var e := if data[k][0].NextHole() == 0 then 0 else ReuseOffset(live[Handle(k, i)]);
      Accounted(data[k := w], live, offset[k := SetOffset(offset[k], i, e)])
  {
    var vec := data[k];
    var (w, i) := Allocate(vec, v);
    if vec[0].NextHole() == 0 {
      NoLiveBeyond(data, live, offset, k);
      AllocatedAccounted(data, live, offset, k, w, i, 0);
    } else {
      var e := ReuseOffset(live[Handle(k, i)]);
      assert |w| == |vec| && w[i].references == 1;
      assert forall j :: 0 < j < |vec| && j != i ==> w[j].references == vec[j].references;
      AllocatedAccounted(data, live, offset, k, w, i, e);
    }
  }

  /** The corrected allocation keeps the accounting too; a reused slot is owed
      `CorrectedOffset` of the handles still naming it, which is nothing when there are none. */
  lemma CorrectedAllocationOwed<T>(data: seq<seq<Slot<T>>>, live: multiset<Handle>, offset: seq<seq<nat>>, k: nat, v: T)
    requires Accounted(data, live, offset) && k < |data| && CanAllocate(data[k])
    ensures var (w, i) := AllocateCorrected(data[k], v);
      var e := if data[k][0].NextHole() == 0 then 0 else CorrectedOffset(live[Handle(k, i)]);
      Accounted(data[k := w], live, offset[k := SetOffset(offset[k], i, e)])
  {
    var vec := data[k];
    var (w, i) := AllocateCorrected(vec, v);
    if vec[0].NextHole() == 0 {
      NoLiveBeyond(data, live, offset, k);
      AllocatedAccounted(data, live, offset, k, w, i, 0);
    } else {
      var e := CorrectedOffset(live[Handle(k, i)]);
      assert |w| == |vec| && w[i].references == 0;
      assert forall j :: 0 < j < |vec| && j != i ==> w[j].references == vec[j].references;
      AllocatedAccounted(data, live, offset, k, w, i, e);
    }
  }

  /** Allocation as written keeps both invariants of the store: the arena stays valid with
      its free list less its head, and the accounting holds with the new slot's offset. */
  lemma AllocateAccounted<T>(data: seq<seq<Slot<T>>>, free: seq<seq<nat>>, live: multiset<Handle>,
                             offset: seq<seq<nat>>, k: nat, v: T)
    requires AllValid(data, free) && Accounted(data, live, offset) && k < |data|
    ensures CanAllocate(data[k])
    ensures var (w, i) := Allocate(data[k], v);
      var e := if free[k] == [] then 0 else ReuseOffset(live[Handle(k, i)]);
      && AllValid(data[k := w], free[k := if free[k] == [] then [] else free[k][1..]])
      && Accounted(data[k := w], live, offset[k := SetOffset(offset[k], i, e)])
  {
    var vec, list := data[k], free[k];
    AllocateValid(vec, list, v);
    ArenaReplacedValid(data, free, k, Allocate(vec, v).0, if list == [] then [] else list[1..]);
    if list != [] {
      assert vec[0].NextHole() == list[0] != 0;
    }
    AllocationOwed(data, live, offset, k, v);
  }

  /** The corrected allocation keeps both invariants of the store as well. */
  lemma AllocateCorrectedAccounted<T>(data: seq<seq<Slot<T>>>, free: seq<seq<nat>>, live: multiset<Handle>,
                                      offset: seq<seq<nat>>, k: nat, v: T)
    requires AllValid(data, free) && Accounted(data, live, offset) && k < |data|
    ensures CanAllocate(data[k])
    ensures var (w, i) := AllocateCorrected(data[k], v);
      var e := if free[k] == [] then 0 else CorrectedOffset(live[Handle(k, i)]);
      && AllValid(data[k := w], free[k := if free[k] == [] then [] else free[k][1..]])
      && Accounted(data[k := w], live, offset[k := SetOffset(offset[k], i, e)])
  {
    var vec, list := data[k], free[k];
    AllocateCorrectedValid(vec, list, v);
    ArenaReplacedValid(data, free, k, AllocateCorrected(vec, v).0, if list == [] then [] else list[1..]);
    if list != [] {
      assert vec[0].NextHole() == list[0] != 0;
    }
    CorrectedAllocationOwed(data, live, offset, k, v);
  }

  /** The sweep keeps every counter, so sweeping any arenas keeps the accounting. */
  lemma SweptAllAccounted<T>(data: seq<seq<Slot<T>>>, free: seq<seq<nat>>, live: multiset<Handle>,
                             offset: seq<seq<nat>>, swept: seq<seq<Slot<T>>>)
    requires AllValid(data, free) && Accounted(data, live, offset)
    requires |swept| == |data| && forall k :: 0 <= k < |data| ==> swept[k] == Swept(data[k])
    ensures Accounted(swept, live, offset)
  {
    forall k | 0 <= k < |data|
      ensures |swept[k]| == |data[k]|
      ensures forall j :: 0 <= j < |data[k]| ==> swept[k][j].references == data[k][j].references
    {
      SweptCounters(data[k]);
    }
    forall k, j | 0 <= k < |swept| && 0 < j < |swept[k]|
      ensures swept[k][j].references == (live[Handle(k, j)] + offset[k][j]) % RefModulus
    {
      assert swept[k][j].references == data[k][j].references;
    }
  }

  /** The counter of slot `i` of arena `k` under the accounting: exactly the live handles
      plus the offset when that sum is below 2^16, and 0 when it is exactly 2^16. */
  lemma CounterOf<T>(data: seq<seq<Slot<T>>>, live: multiset<Handle>, offset: seq<seq<nat>>, k: nat, i: nat)
    requires Accounted(data, live, offset) && k < |data| && 0 < i < |data[k]|
    ensures live[Handle(k, i)] + offset[k][i] < RefModulus ==>
      data[k][i].references == live[Handle(k, i)] + offset[k][i]
    ensures live[Handle(k, i)] + offset[k][i] == RefModulus ==> data[k][i].references == 0
  {
  }

  /** An object slot whose live handles, with its offset, number between 1 and 2^16 - 1 has
      a positive counter, so the sweep leaves it alone. */
  lemma LiveObjectsSurvive<T>(data: seq<seq<Slot<T>>>, free: seq<seq<nat>>, live: multiset<Handle>,
                              offset: seq<seq<nat>>, k: nat, i: nat)
    requires AllValid(data, free) && Accounted(data, live, offset)
    requires k < |data| && 0 < i < |data[k]|
    ensures 0 < live[Handle(k, i)] && live[Handle(k, i)] + offset[k][i] < RefModulus ==>
      && data[k][i].references > 0
      && i !in Reclaimed(data[k])
      && Swept(data[k])[i] == data[k][i]
  {
    if 0 < live[Handle(k, i)] && live[Handle(k, i)] + offset[k][i] < RefModulus {
      CounterOf(data, live, offset, k, i);
      SweepKeeps(data[k], free[k], i);
    }
  }

  /** Every slot whose live handles, with its offset, number between 1 and 2^16 - 1 is
      left alone by the sweep of its arena. */
  lemma LiveSlotsSurvive<T>(data: seq<seq<Slot<T>>>, free: seq<seq<nat>>, live: multiset<Handle>,
                            offset: seq<seq<nat>>)
    requires AllValid(data, free) && Accounted(data, live, offset)
    ensures forall k, i ::
      (0 <= k < |data| && 0 < i < |data[k]| && 0 < live[Handle(k, i)] && live[Handle(k, i)] + offset[k][i] < RefModulus) ==>
      Swept(data[k])[i] == data[k][i]
  {
    forall k, i | 0 <= k < |data| && 0 < i < |data[k]| && 0 < live[Handle(k, i)] && live[Handle(k, i)] + offset[k][i] < RefModulus
      ensures Swept(data[k])[i] == data[k][i]
    {
      LiveObjectsSurvive(data, free, live, offset, k, i);
    }
  }

  /** As written, the counter wraps: an object whose live handles and offset add up to
      exactly 2^16 has counter 0, and the sweep turns it into a hole although at least
      2^16 - 1 handles still name it. */
  lemma WrapReclaimsLive<T>(data: seq<seq<Slot<T>>>, free: seq<seq<nat>>, live: multiset<Handle>,
                            offset: seq<seq<nat>>, k: nat, i: nat)
    requires AllValid(data, free) && Accounted(data, live, offset)
    requires k < |data| && 0 < i < |data[k]| && data[k][i].IsObject()
    requires live[Handle(k, i)] + offset[k][i] == RefModulus
    ensures live[Handle(k, i)] > 0
    ensures data[k][i].references == 0
    ensures i in Reclaimed(data[k]) && !Swept(data[k])[i].IsObject()
  {
    CounterOf(data, live, offset, k, i);
    SweepReclaims(data[k], free[k], i);
  }

  /** Accounting with no wrap-around: every slot's live handles plus its offset stay below
      2^16, so its counter is exactly their sum. */
  ghost predicate ExactlyAccounted<T>(data: seq<seq<Slot<T>>>, live: multiset<Handle>, offset: seq<seq<nat>>) {
    && Accounted(data, live, offset)
    && forall k, i :: 0 <= k < |data| && 0 < i < |data[k]| ==> live[Handle(k, i)] + offset[k][i] < RefModulus
  }

  /** Registration as evidently intended: refused, instead of wrapping to 0, when the
      counter is already at its maximum. */
  function RegisterChecked<T>(data: seq<seq<Slot<T>>>, h: Handle): (r: Option<seq<seq<Slot<T>>>>)
    requires Targets(data, h)
    ensures r.None? <==> data[h.kind][h.index].references == RefModulus - 1
    ensures r.Some? ==> r.value == data[h.kind := Incremented(data[h.kind], h.index)]
  {
    if data[h.kind][h.index].references == RefModulus - 1 then None
    else Some(data[h.kind := Incremented(data[h.kind], h.index)])
  }

  /** With no wrap-around, every slot that a live handle names survives the sweep. */
  lemma ExactLiveSurvive<T>(data: seq<seq<Slot<T>>>, free: seq<seq<nat>>, live: multiset<Handle>,
                            offset: seq<seq<nat>>)
    requires AllValid(data, free) && ExactlyAccounted(data, live, offset)
    ensures forall k, i :: 0 <= k < |data| && 0 < i < |data[k]| && live[Handle(k, i)] > 0 ==>
      Swept(data[k])[i] == data[k][i]
  {
    forall k, i | 0 <= k < |data| && 0 < i < |data[k]| && live[Handle(k, i)] > 0
      ensures Swept(data[k])[i] == data[k][i]
    {
      LiveObjectsSurvive(data, free, live, offset, k, i);
    }
  }

  /** A registration that is not refused keeps the counters exact. */
  lemma CheckedRegisterExact<T>(data: seq<seq<Slot<T>>>, live: multiset<Handle>, offset: seq<seq<nat>>, h: Handle)
    requires ExactlyAccounted(data, live, offset) && h.index > 0 && Targets(data, h)
    requires RegisterChecked(data, h).Some?
    ensures ExactlyAccounted(RegisterChecked(data, h).value, live + multiset{h}, offset)
  {
    var data' := RegisterChecked(data, h).value;
    var live' := live + multiset{h};
    RegisterAccounted(data, live, offset, h);
    assert live' == WithHandle(live, h);
    CounterOf(data, live, offset, h.kind, h.index);
    assert h == Handle(h.kind, h.index);
    forall k, i | 0 <= k < |data'| && 0 < i < |data'[k]|
      ensures live'[Handle(k, i)] + offset[k][i] < RefModulus
    {
      if Handle(k, i) != h {
        assert live'[Handle(k, i)] == live[Handle(k, i)];
      }
    }
  }

  /** Checked registration keeps the counters exact: it is refused only when the slot's
      live handles and offset are already at 2^16 - 1, and otherwise the new handle is
      counted, the invariants are kept, and every slot a live handle names survives the
      next sweep. */
  lemma CheckedRegisterKeepsLive<T>(data: seq<seq<Slot<T>>>, free: seq<seq<nat>>, live: multiset<Handle>,
                                    offset: seq<seq<nat>>, h: Handle)
    requires AllValid(data, free) && ExactlyAccounted(data, live, offset) && h.index > 0 && Targets(data, h)
    ensures RegisterChecked(data, h).None? ==> live[h] + offset[h.kind][h.index] == RefModulus - 1
    ensures RegisterChecked(data, h).Some? ==>
      var data' := RegisterChecked(data, h).value;
      && AllValid(data', free)
      && ExactlyAccounted(data', live + multiset{h}, offset)
      && forall k, i :: 0 <= k < |data'| && 0 < i < |data'[k]| && (live + multiset{h})[Handle(k, i)] > 0 ==>
           Swept(data'[k])[i] == data'[k][i]
  {
    assert h == Handle(h.kind, h.index);
    CounterOf(data, live, offset, h.kind, h.index);
    var r := RegisterChecked(data, h);
    if r.Some? {
      RegisteredSpec(data, free, h);
      CheckedRegisterExact(data, live, offset, h);
      ExactLiveSurvive(r.value, free, live + multiset{h}, offset);
    }
  }

  class Store<T> {
    /** One slot vector per object kind. */
    var data: seq<seq<Slot<T>>>
    /** The free list of each arena, as the chain of indices from its sentinel. */
    ghost var free: seq<seq<nat>>
    /** The non-empty handles currently alive, one entry per handle object. */
    ghost var live: multiset<Handle>
    /** Per slot, the references the store put into its counter itself. */
    ghost var offset: seq<seq<nat>>

    ghost predicate Valid()
      reads this
    {
      AllValid(data, free) && Accounted(data, live, offset)
    }

    /** A store with `kinds` arenas, each holding only its sentinel hole, and no handle. */
    constructor (kinds: nat)
      ensures Valid() && |data| == kinds && live == multiset{}
      ensures forall k :: 0 <= k < kinds ==> data[k] == EmptyArena() && free[k] == [] && offset[k] == [0]
    {
      data := seq(kinds, _ => EmptyArena());
      free := seq(kinds, _ => []);
      live := multiset{};
      offset := seq(kinds, _ => [0]);
    }

    /** Usable slots of kind `k`; never fewer than the free ones. */
    function Capacity(k: nat): (r: nat)
      reads this
      requires Valid() && k < |data|
      ensures r + 1 == |data[k]|
      ensures |free[k]| <= r
    {
      FreeListBound(data[k], free[k]);
      Arenas.Capacity(data[k])
    }

    /** Walks the free list of kind `k` from the sentinel and counts its holes. */
    method FreeCapacity(k: nat) returns (count: nat)
      requires Valid() && k < |data|
      ensures count == |free[k]|
    {
      var vec := data[k];
      ghost var list := free[k];
      var index := 0;
      count := 0;
      var next := vec[index].NextHole();
      while next != 0
        invariant count <= |list|
        invariant index < |vec| && !vec[index].IsObject()
        invariant next == if count < |list| then list[count] else 0
        decreases |list| - count
      {
        count := count + 1;
        index := next;
        next := vec[index].NextHole();
      }
    }

    /** `ObjectStorage::Get`: the object in the handle's slot, if it holds one; never
        one for the sentinel or a hole. */
    function Get(h: Handle): (r: Option<T>)
      reads this
      requires Targets(data, h)
      ensures r.Some? <==> data[h.kind][h.index].IsObject()
      ensures r.Some? ==> data[h.kind][h.index].content == Object(r.value)
      ensures Valid() && h.index == 0 ==> r == None
    {
      Arenas.Get(data[h.kind], h.index)
    }

    /** `ObjectStorage::GetNumReferences`: the counter of the handle's slot, which counts
        its live handles (plus the slot's offset) modulo 2^16. */
    function GetNumReferences(h: Handle): (r: nat)
      reads this
      requires Targets(data, h)
      ensures Valid() ==> r < RefModulus
      ensures Accounted(data, live, offset) && h.index > 0 ==> r == (live[h] + offset[h.kind][h.index]) % RefModulus
    {
      assert h == Handle(h.kind, h.index);
      data[h.kind][h.index].references
    }

    /** `OHandle::num_references`: 0 for the empty handle without asking the store,
        otherwise the counter of its slot. */
    function NumReferences(h: Handle): (r: nat)
      reads this
      requires Bound(data, h)
      ensures h.index == 0 ==> r == 0
      ensures Valid() ==> r < RefModulus
      ensures h.index > 0 ==> r == data[h.kind][h.index].references
    {
      if h.index > 0 then GetNumReferences(h) else 0
    }

    /** `OHandle::operator->` and `operator*`: nothing for the empty handle without
        asking the store, otherwise the store's answer. Because the sentinel is a
        hole, the shortcut agrees with the store's own lookup. */
    function Deref(h: Handle): (r: Option<T>)
      reads this
      requires Bound(data, h)
      ensures h.index == 0 ==> r == None
      ensures Valid() && Targets(data, h) ==> r == Get(h)
      ensures r.Some? ==> h.index > 0 && data[h.kind][h.index].content == Object(r.value)
    {
      if h.index > 0 then Get(h) else None
    }

    /** `RegisterReference`: one more live handle on the slot. */
    method Register(h: Handle)
      requires Valid() && Targets(data, h)
      modifies this
      ensures Valid() && free == old(free) && offset == old(offset)
      ensures live == WithHandle(old(live), h)
      ensures data == old(data)[h.kind := Incremented(old(data[h.kind]), h.index)]
    {
      IncrementedSpec(data[h.kind], free[h.kind], h.index);
      RegisterAccounted(data, live, offset, h);
      var vec := data[h.kind];
      data := data[h.kind := vec[h.index := vec[h.index].(references := Inc16(vec[h.index].references))]];
      live := WithHandle(live, h);
    }

    /** `DeregisterReference`: one live handle fewer on the slot. */
    method Deregister(h: Handle)
      requires Valid() && h in live
      modifies this
      ensures Targets(old(data), h)
      ensures Valid() && free == old(free) && offset == old(offset)
      ensures live == WithoutHandle(old(live), h)
      ensures data == old(data)[h.kind := Decremented(old(data[h.kind]), h.index)]
    {
      DeregisterAccounted(data, live, offset, h);
      DecrementedSpec(data[h.kind], free[h.kind], h.index);
      var vec := data[h.kind];
      data := data[h.kind := vec[h.index := vec[h.index].(references := Dec16(vec[h.index].references))]];
      live := WithoutHandle(live, h);
    }

    /** The handle constructor from a store-issued index: registers unconditionally. */
    method Acquire(k: nat, i: nat) returns (h: Handle)
      requires Valid() && k < |data| && i < |data[k]|
      modifies this
      ensures h == Handle(k, i)
      ensures Valid() && free == old(free) && offset == old(offset)
      ensures live == WithHandle(old(live), h)
      ensures data == old(data)[k := Incremented(old(data[k]), i)]
    {
      h := Handle(k, i);
      Register(h);
    }

    /** The store's half of `Create`: reuse the head of the free list, or append a slot
        when it is empty. The arena becomes `Allocate` of the old one, the free list
        loses its head, and the new slot's offset is what the store's own counter owes. */
    method Place(k: nat, v: T) returns (index: nat)
      requires Valid() && k < |data|
      modifies this
      ensures Valid() && |data| == old(|data|) && CanAllocate(old(data[k]))
      ensures (data[k], index) == Allocate(old(data[k]), v)
      ensures data == old(data)[k := data[k]]
      ensures free == old(free)[k := if old(free[k]) == [] then [] else old(free[k])[1..]]
      ensures live == old(live)
      ensures offset == old(offset)[k := SetOffset(old(offset[k]), index,
        if old(free[k]) == [] then 0 else ReuseOffset(old(live)[Handle(k, index)]))]
    {
      var vec := data[k];
      ghost var list := free[k];
      AllocateAccounted(data, free, live, offset, k, v);
      ghost var e := if list == [] then 0 else ReuseOffset(live[Handle(k, Allocate(vec, v).1)]);
      var nextHole := vec[0].NextHole();
      if nextHole == 0 {
        data := data[k := vec + [Slot(0, Object(v))]];
        index := |vec|;
      } else {
        var nextNext := vec[nextHole].NextHole();
        var unlinked := vec[0 := vec[0].(content := Hole(nextNext))];
        data := data[k := unlinked[nextHole := Slot(1, Object(v))]];
        index := nextHole;
      }
      free := free[k := if list == [] then [] else list[1..]];
      offset := offset[k := SetOffset(offset[k], index, e)];
    }

    /** `Create`: place the object, then construct the handle (which registers a
        reference). The result is `Created` on the arena; appending yields counter 1,
        reusing counter 2. The new handle becomes live; an appended slot owes nothing,
        a reused one the reference the store set itself. */
    method Create(k: nat, v: T) returns (h: Handle)
      requires Valid() && k < |data|
      modifies this
      ensures Valid() && |data| == old(|data|)
      ensures CanAllocate(old(data[k])) && (data[k], h.index) == Created(old(data[k]), v)
      ensures h.kind == k && h.index != 0
      ensures h.index == if old(free[k]) == [] then old(|data[k]|) else old(free[k])[0]
      ensures |data[k]| == old(|data[k]|) + if old(free[k]) == [] then 1 else 0
      ensures Get(h) == Some(v)
      ensures data[k][h.index].references == if old(free[k]) == [] then 1 else 2
      ensures forall j :: 0 < j < old(|data[k]|) && j != h.index ==> data[k][j] == old(data[k][j])
      ensures forall j :: 0 <= j < |data| && j != k ==> data[j] == old(data[j])
      ensures free == old(free)[k := if old(free[k]) == [] then [] else old(free[k])[1..]]
      ensures live == old(live) + multiset{h}
      ensures offset == old(offset)[k := SetOffset(old(offset[k]), h.index,
        if old(free[k]) == [] then 0 else ReuseOffset(old(live)[h]))]
    {
      if free[k] == [] {
        CreateAppends(data[k], free[k], v);
      } else {
        CreateReuses(data[k], free[k], v);
      }
      var index := Place(k, v);
      h := Acquire(k, index);
    }

    /** The store's half of `CreateCorrected`: as `Place`, but a reused slot starts at
        counter 0 and owes `CorrectedOffset` of the handles still naming it. */
    method PlaceCorrected(k: nat, v: T) returns (index: nat)
      requires Valid() && k < |data|
      modifies this
      ensures Valid() && |data| == old(|data|) && CanAllocate(old(data[k]))
      ensures (data[k], index) == AllocateCorrected(old(data[k]), v)
      ensures data == old(data)[k := data[k]]
      ensures free == old(free)[k := if old(free[k]) == [] then [] else old(free[k])[1..]]
      ensures live == old(live)
      ensures offset == old(offset)[k := SetOffset(old(offset[k]), index,
        if old(free[k]) == [] then 0 else CorrectedOffset(old(live)[Handle(k, index)]))]
    {
      var vec := data[k];
      ghost var list := free[k];
      AllocateCorrectedAccounted(data, free, live, offset, k, v);
      ghost var e := if list == [] then 0 else CorrectedOffset(live[Handle(k, AllocateCorrected(vec, v).1)]);
      var nextHole := vec[0].NextHole();
      if nextHole == 0 {
        data := data[k := vec + [Slot(0, Object(v))]];
        index := |vec|;
      } else {
        var nextNext := vec[nextHole].NextHole();
        var unlinked := vec[0 := vec[0].(content := Hole(nextNext))];
        data := data[k := unlinked[nextHole := Slot(0, Object(v))]];
        index := nextHole;
      }
      free := free[k := if list == [] then [] else list[1..]];
      offset := offset[k := SetOffset(offset[k], index, e)];
    }

    /** `Create` as evidently intended: a reused slot starts at counter 0 like an
        appended one, so the new handle is its only reference and the slot owes nothing. */
    method CreateCorrected(k: nat, v: T) returns (h: Handle)
      requires Valid() && k < |data|
      modifies this
      ensures Valid() && |data| == old(|data|)
      ensures CanAllocate(old(data[k])) && (data[k], h.index) == CreatedCorrected(old(data[k]), v)
      ensures h.kind == k && h.index != 0
      ensures h.index == if old(free[k]) == [] then old(|data[k]|) else old(free[k])[0]
      ensures data[k][h.index] == Slot(1, Object(v))
      ensures forall j :: 0 < j < old(|data[k]|) && j != h.index ==> data[k][j] == old(data[k][j])
      ensures forall j :: 0 <= j < |data| && j != k ==> data[j] == old(data[j])
      ensures free == old(free)[k := if old(free[k]) == [] then [] else old(free[k])[1..]]
      ensures live == old(live) + multiset{h}
      ensures offset == old(offset)[k := SetOffset(old(offset[k]), h.index,
        if old(free[k]) == [] then 0 else CorrectedOffset(old(live)[h]))]
    {
      CorrectedCreateReclaimable(data[k], free[k], v);
      var index := PlaceCorrected(k, v);
      h := Acquire(k, index);
    }

    /** Handle destructor: a non-empty handle, which must be live, deregisters and stops
        being live; the empty one does nothing. */
    method Drop(h: Handle)
      requires Valid() && (h.index > 0 ==> h in live)
      modifies this
      ensures Bound(old(data), h)
      ensures Valid() && free == old(free) && offset == old(offset)
      ensures live == WithoutHandle(old(live), h)
      ensures data == Deregistered(old(data), h)
    {
      if h.index > 0 {
        Deregister(h);
      }
    }

    /** Copy constructor: the copy registers and becomes live unless it is empty. */
    method Copy(h: Handle) returns (c: Handle)
      requires Valid() && Bound(data, h)
      modifies this
      ensures c == h
      ensures Valid() && free == old(free) && offset == old(offset)
      ensures live == WithHandle(old(live), c)
      ensures data == Registered(old(data), h)
    {
      c := h;
      if c.index > 0 {
        Register(c);
      }
    }

    /** Move constructor: exactly a copy; the moved-from handle keeps its index, stays
        live, and still deregisters when it is destroyed. */
    method Move(h: Handle) returns (m: Handle)
      requires Valid() && Bound(data, h)
      modifies this
      ensures m == h
      ensures Valid() && free == old(free) && offset == old(offset)
      ensures live == WithHandle(old(live), m)
      ensures data == Registered(old(data), h)
    {
      m := h;
      if m.index > 0 {
        Register(m);
      }
    }

    /** Copy assignment `lhs = rhs`: deregister the old target, rebind, register the
        new one; empty handles take no part. Returns the rebound left-hand side. */
    method Assign(lhs: Handle, rhs: Handle) returns (r: Handle)
      requires Valid() && (lhs.index > 0 ==> lhs in live) && Bound(data, rhs)
      modifies this
      ensures r == rhs
      ensures Valid() && free == old(free) && offset == old(offset)
      ensures live == WithHandle(WithoutHandle(old(live), lhs), r)
      ensures Bound(old(data), lhs) && Bound(Deregistered(old(data), lhs), rhs)
      ensures data == Registered(Deregistered(old(data), lhs), rhs)
    {
      if lhs.index > 0 {
        Deregister(lhs);
      }
      r := rhs;
      if r.index > 0 {
        Register(r);
      }
    }

    /** Move assignment: exactly a copy assignment; the right-hand side is left as it was. */
    method MoveAssign(lhs: Handle, rhs: Handle) returns (r: Handle)
      requires Valid() && (lhs.index > 0 ==> lhs in live) && Bound(data, rhs)
      modifies this
      ensures r == rhs
      ensures Valid() && free == old(free) && offset == old(offset)
      ensures live == WithHandle(WithoutHandle(old(live), lhs), r)
      ensures Bound(old(data), lhs) && Bound(Deregistered(old(data), lhs), rhs)
      ensures data == Registered(Deregistered(old(data), lhs), rhs)
    {
      if lhs.index > 0 {
        Deregister(lhs);
      }
      r := rhs;
      if r.index > 0 {
        Register(r);
      }
    }

    /** The ascending pass over arena `k`, in place: every object with counter 0 becomes
        a hole linked to the current head of the free list, and becomes the new head. */
    method SweepArena(k: nat)
      requires k < |data| && HasSentinel(data[k])
      modifies this
      ensures data == old(data)[k := Swept(old(data[k]))]
      ensures free == old(free) && live == old(live) && offset == old(offset)
    {
      ghost var vec0 := data[k];
      var i := 0;
      while i < |data[k]|
        invariant k < |data| && data == old(data)[k := data[k]]
        invariant free == old(free) && live == old(live) && offset == old(offset)
        invariant HasSentinel(data[k]) && |data[k]| == |vec0| && i <= |data[k]|
        invariant SweepFrom(data[k], i) == Swept(vec0)
      {
        var vec := data[k];
        var entry := vec[i];
        if entry.IsObject() && entry.references == 0 {
          var holed := vec[i := entry.(content := Hole(vec[0].NextHole()))];
          data := data[k := holed[0 := holed[0].(content := Hole(i))]];
        }
        assert data[k] == Step(vec, i);
        i := i + 1;
      }
    }

    /** The sweep of one arena: the swept vector, with the reclaimed indices pushed in
        front of its free list, every arena still valid. */
    method CleanArena(k: nat)
      requires AllValid(data, free) && k < |data|
      modifies this
      ensures AllValid(data, free) && |data| == old(|data|)
      ensures data == old(data)[k := Swept(old(data[k]))]
      ensures free == old(free)[k := Reclaimed(old(data[k])) + old(free[k])]
      ensures live == old(live) && offset == old(offset)
    {
      ghost var vec0 := data[k];
      ghost var list0 := free[k];
      SweepSpec(vec0, list0);
      SweepArena(k);
      free := free[k := Reclaimed(vec0) + list0];
    }

    /** `Clean`: sweep every arena independently. No live handle is given back, and every
        slot whose live handles (with its offset) number between 1 and 2^16 - 1 is kept. */
    method Clean()
      requires Valid()
      modifies this
      ensures Valid() && |data| == old(|data|)
      ensures live == old(live) && offset == old(offset)
      ensures forall k :: 0 <= k < |data| ==>
        && data[k] == Swept(old(data[k]))
        && free[k] == Reclaimed(old(data[k])) + old(free[k])
      ensures forall k, i ::
        (0 <= k < |data| && 0 < i < |data[k]| && 0 < live[Handle(k, i)] && live[Handle(k, i)] + offset[k][i] < RefModulus) ==>
        data[k][i] == old(data[k][i])
    {
      ghost var data0 := data;
      ghost var free0 := free;
      var k := 0;
      while k < |data|
        invariant AllValid(data, free) && |data| == old(|data|) && k <= |data|
        invariant live == old(live) && offset == old(offset)
        invariant forall j :: 0 <= j < k ==>
          && data[j] == Swept(old(data[j]))
          && free[j] == Reclaimed(old(data[j])) + old(free[j])
        invariant forall j :: k <= j < |data| ==> data[j] == old(data[j]) && free[j] == old(free[j])
      {
        CleanArena(k);
        k := k + 1;
      }
      SweptAllAccounted(data0, free0, live, offset, data);
      LiveSlotsSurvive(data0, free0, live, offset);
    }
  }
}
