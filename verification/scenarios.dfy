/** Clients of the store that replay the repository's test fixture and tests, and the
    end-to-end reuse scenario: what callers can conclude from the store's contracts
    alone. The fixture's three object types are the kinds 0, 1 and 2. */
module Scenarios {
  import opened Slots
  import opened Arenas
  import opened Handles
  import opened Storage

  /** An arena holding `n` objects, the `j`-th of them `j - 1` with counter 1, and no hole. */
  ghost predicate ArenaFilled(vec: seq<Slot<int>>, list: seq<nat>, n: nat) {
    && list == [] && |vec| == n + 1
    && forall j :: 0 < j <= n ==> vec[j] == Slot(1, Object(j - 1))
  }

  /** A filled arena has nothing to reclaim. */
  lemma FilledNoneReclaimed(vec: seq<Slot<int>>, list: seq<nat>, n: nat)
    requires Arenas.Valid(vec, list) && ArenaFilled(vec, list, n)
    ensures Reclaimed(vec) == []
  {
    ReclaimedNone(vec);
  }

  /** Once the last object of a filled arena loses its only reference, it is the one
      slot to reclaim. */
  lemma DropLastReclaimed(vec: seq<Slot<int>>, list: seq<nat>, n: nat)
    requires Arenas.Valid(vec, list) && ArenaFilled(vec, list, n) && n > 0
    ensures Reclaimed(Decremented(vec, n)) == [n]
  {
    DecrementedSpec(vec, list, n);
    ReclaimedSingleton(Decremented(vec, n), n);
  }

  /** Dropping the last object's only reference and sweeping frees exactly that slot and
      keeps the objects before it. */
  lemma ReleasedLastSwept(vec: seq<Slot<int>>, list: seq<nat>, n: nat)
    requires Arenas.Valid(vec, list) && ArenaFilled(vec, list, n) && n > 0
    ensures Reclaimed(Decremented(vec, n)) == [n]
    ensures |Swept(Decremented(vec, n))| == n + 1
    ensures forall j :: 0 < j < n ==> Swept(Decremented(vec, n))[j] == Slot(1, Object(j - 1))
  {
    DropLastReclaimed(vec, list, n);
    DecrementedSpec(vec, list, n);
    SweepSpec(Decremented(vec, n), list);
  }

  /** Sweeping a filled arena frees nothing and keeps its length. */
  lemma FilledSwept(vec: seq<Slot<int>>, list: seq<nat>, n: nat)
    requires Arenas.Valid(vec, list) && ArenaFilled(vec, list, n)
    ensures Reclaimed(vec) == [] && |Swept(vec)| == n + 1
  {
    FilledNoneReclaimed(vec, list, n);
    SweptCounters(vec);
  }

  /** The three arenas after the fixture. */
  ghost predicate Filled(store: Store<int>, n: nat)
    reads store
  {
    && store.Valid() && |store.data| == 3
    && forall k :: 0 <= k < 3 ==> ArenaFilled(store.data[k], store.free[k], n)
  }

  /** One Create in a filled arena appends the next object and leaves the other arenas alone. */
  method CreateNext(store: Store<int>, k: nat, i: nat) returns (h: Handle)
    requires store.Valid() && k < |store.data| && ArenaFilled(store.data[k], store.free[k], i)
    modifies store
    ensures store.Valid() && |store.data| == old(|store.data|)
    ensures ArenaFilled(store.data[k], store.free[k], i + 1) && h == Handle(k, i + 1)
    ensures forall j :: 0 <= j < |store.data| && j != k ==>
      store.data[j] == old(store.data[j]) && store.free[j] == old(store.free[j])
    ensures store.live == old(store.live) + multiset{h}
  {
    h := store.Create(k, i);
  }

  /** One round of the fixture: one object created in each of the three kinds. */
  method CreateRound(store: Store<int>, i: nat) returns (ha: Handle, hb: Handle, hd: Handle)
    requires Filled(store, i)
    modifies store
    ensures Filled(store, i + 1)
    ensures ha == Handle(0, i + 1) && hb == Handle(1, i + 1) && hd == Handle(2, i + 1)
    ensures store.live == old(store.live) + multiset{ha} + multiset{hb} + multiset{hd}
  {
    ha := CreateNext(store, 0, i);
    hb := CreateNext(store, 1, i);
    hd := CreateNext(store, 2, i);
  }

  /** The test fixture: a store of three kinds, `n` objects created in each, round
      robin, keeping every handle. */
  method Fixture(n: nat) returns (store: Store<int>, a: seq<Handle>, b: seq<Handle>, d: seq<Handle>)
    ensures fresh(store) && Filled(store, n)
    ensures |a| == n && |b| == n && |d| == n
    ensures forall j :: 0 <= j < n ==>
      a[j] == Handle(0, j + 1) && b[j] == Handle(1, j + 1) && d[j] == Handle(2, j + 1)
    ensures store.live == multiset(a) + multiset(b) + multiset(d)
  {
    store := new Store<int>(3);
    a, b, d := [], [], [];
    var i := 0;
    while i < n
      invariant 0 <= i <= n
      invariant Filled(store, i)
      invariant |a| == i && |b| == i && |d| == i
      invariant forall j :: 0 <= j < i ==>
        a[j] == Handle(0, j + 1) && b[j] == Handle(1, j + 1) && d[j] == Handle(2, j + 1)
      invariant store.live == multiset(a) + multiset(b) + multiset(d)
    {
      var ha, hb, hd := CreateRound(store, i);
      a, b, d := a + [ha], b + [hb], d + [hd];
      i := i + 1;
    }
  }

  /** After the fixture every kind has capacity `n` and no free slot. */
  method InitialCapacities(n: nat) returns (capacities: seq<nat>, frees: seq<nat>)
    ensures capacities == [n, n, n] && frees == [0, 0, 0]
  {
    var store, a, b, d := Fixture(n);
    capacities := [store.Capacity(0), store.Capacity(1), store.Capacity(2)];
    var f0 := store.FreeCapacity(0);
    var f1 := store.FreeCapacity(1);
    var f2 := store.FreeCapacity(2);
    frees := [f0, f1, f2];
  }

  /** Destroying the fixture's last handle of kind 0 and sweeping: slot `n` of kind 0 is
      the only free slot, the objects before it are untouched, and the other kinds keep
      their `n` objects and no free slot. */
  method ReleaseLast(store: Store<int>, a: seq<Handle>, n: nat)
    requires n > 0 && Filled(store, n) && |a| == n && a[n - 1] == Handle(0, n) && a[n - 1] in store.live
    modifies store
    ensures store.Valid() && |store.data| == 3
    ensures store.free[0] == [n] && |store.data[0]| == n + 1
    ensures forall j :: 0 < j < n ==> store.data[0][j] == Slot(1, Object(j - 1))
    ensures |store.data[1]| == n + 1 && store.free[1] == [] && |store.data[2]| == n + 1 && store.free[2] == []
    ensures store.live == old(store.live) - multiset{a[n - 1]}
  {
    ReleasedLastSwept(store.data[0], store.free[0], n);
    FilledSwept(store.data[1], store.free[1], n);
    FilledSwept(store.data[2], store.free[2], n);
    ghost var other := store.data[1..];
    store.Drop(a[n - 1]);
    assert store.data[1..] == other;
    store.Clean();
  }

  /** Destroying the last handle of kind 0 and sweeping frees exactly its slot: the
      capacities stay `n`, kind 0 has one free slot and the others none. */
  method CapacitiesAfterDeletions(n: nat) returns (capacities: seq<nat>, frees: seq<nat>)
    requires n > 0
    ensures capacities == [n, n, n] && frees == [1, 0, 0]
  {
    var store, a, b, d := Fixture(n);
    assert a[n - 1] in multiset(a);
    ReleaseLast(store, a, n);
    capacities := [store.Capacity(0), store.Capacity(1), store.Capacity(2)];
    var f0 := store.FreeCapacity(0);
    var f1 := store.FreeCapacity(1);
    var f2 := store.FreeCapacity(2);
    frees := [f0, f1, f2];
  }

  /** A fixture handle reports one reference, two once it has been copied, and one
      again once the copy is destroyed. */
  method NumberOfReferences(n: nat) returns (initial: nat, copied: nat, dropped: nat)
    requires n > 7
    ensures initial == 1 && copied == 2 && dropped == 1
  {
    var store, a, b, d := Fixture(n);
    initial := store.NumReferences(b[7]);
    var copy := store.Copy(b[7]);
    copied := store.NumReferences(b[7]);
    assert copy in store.live;
    store.Drop(copy);
    dropped := store.NumReferences(b[7]);
  }

  /** An arena of `n - 1` objects with one reference each and an object in slot `n` with
      counter `r`: the sweep reclaims slot `n` exactly when `r` is 0. */
  lemma LastSlotReclaimed(vec: seq<Slot<int>>, n: nat, r: nat, v: int)
    requires |vec| == n + 1 && n > 0 && !vec[0].IsObject()
    requires forall j :: 0 < j < n ==> vec[j] == Slot(1, Object(j - 1))
    requires vec[n] == Slot(r, Object(v))
    ensures Reclaimed(vec) == if r == 0 then [n] else []
  {
    if r == 0 {
      ReclaimedSingleton(vec, n);
    } else {
      ReclaimedNone(vec);
    }
  }

  /** On a store whose kind 0 has `n - 1` objects with one reference each and slot `n` as
      its only free slot, Create reuses slot `n`: as written with counter 2, corrected
      with counter 1. */
  method Recreate(store: Store<int>, n: nat, corrected: bool) returns (h: Handle)
    requires n > 0 && store.Valid() && |store.data| == 3
    requires store.free[0] == [n] && |store.data[0]| == n + 1
    requires forall j :: 0 < j < n ==> store.data[0][j] == Slot(1, Object(j - 1))
    modifies store
    ensures store.Valid() && |store.data| == 3 && store.free[0] == [] && |store.data[0]| == n + 1
    ensures h == Handle(0, n) && h in store.live
    ensures forall j :: 0 < j < n ==> store.data[0][j] == Slot(1, Object(j - 1))
    ensures store.data[0][n] == Slot(if corrected then 1 else 2, Object(100))
  {
    if corrected {
      h := store.CreateCorrected(0, 100);
    } else {
      h := store.Create(0, 100);
    }
  }

  /** On a store whose kind 0 has `n - 1` objects with one reference each and slot `n` as
      its only free slot: create again (which reuses slot `n`) and destroy that handle.
      Kind 0 is left with no free slot, and slot `n` is the one to reclaim exactly when
      the counter the handle saw was 1. */
  method RecreateDrop(store: Store<int>, n: nat, corrected: bool) returns (index: nat, refs: nat)
    requires n > 0 && store.Valid() && |store.data| == 3
    requires store.free[0] == [n] && |store.data[0]| == n + 1
    requires forall j :: 0 < j < n ==> store.data[0][j] == Slot(1, Object(j - 1))
    modifies store
    ensures store.Valid() && |store.data| == 3 && store.free[0] == []
    ensures index == n
    ensures refs == if corrected then 1 else 2
    ensures Reclaimed(store.data[0]) == if corrected then [n] else []
  {
    var h := Recreate(store, n, corrected);
    index := h.index;
    refs := store.NumReferences(h);
    ghost var first := store.data[0];
    store.Drop(h);
    ghost var second := store.data[0];
    assert forall j :: 0 < j < n ==> second[j] == first[j];
    assert second[n] == Slot(refs - 1, Object(100));
    LastSlotReclaimed(second, n, refs - 1, 100);
  }

  /** The second half of the reuse scenario: create again, destroy that handle, sweep,
      and count the free slots of kind 0. */
  method RecreateRelease(store: Store<int>, n: nat, corrected: bool) returns (index: nat, refs: nat, count: nat)
    requires n > 0 && store.Valid() && |store.data| == 3
    requires store.free[0] == [n] && |store.data[0]| == n + 1
    requires forall j :: 0 < j < n ==> store.data[0][j] == Slot(1, Object(j - 1))
    modifies store
    ensures index == n
    ensures refs == if corrected then 1 else 2
    ensures count == if corrected then 1 else 0
  {
    index, refs := RecreateDrop(store, n, corrected);
    store.Clean();
    count := store.FreeCapacity(0);
  }

  /** The reuse double count, end to end: destroy the last handle of kind 0, sweep,
      create again (which reuses slot `n`), destroy that handle, sweep again, and count
      the free slots of kind 0. As written the reused slot reports two references and
      survives the second sweep; with the corrected Create it reports one and is freed. */
  method ReleaseReused(n: nat, corrected: bool) returns (index: nat, refs: nat, count: nat)
    requires n > 0
    ensures index == n
    ensures refs == if corrected then 1 else 2
    ensures count == if corrected then 1 else 0
  {
    var store, a, b, d := Fixture(n);
    assert a[n - 1] in multiset(a);
    ReleaseLast(store, a, n);
    index, refs, count := RecreateRelease(store, n, corrected);
  }

  /** The empty handle reports no object and no reference, and copying, moving or
      destroying it changes no counter. */
  method EmptyHandleIsInert() returns (refs: nat, obj: Option<int>, untouched: bool)
    ensures refs == 0 && obj == None && untouched
  {
    var store := new Store<int>(2);
    var h := store.Create(0, 5);
    var e := Empty(0);
    refs := store.NumReferences(e);
    obj := store.Deref(e);
    var before := store.data;
    var c := store.Copy(e);
    var m := store.Move(c);
    store.Drop(m);
    store.Drop(e);
    untouched := store.data == before;
  }

  /** A store of one kind holding one object, whose handle has been copied until 2^16
      handles on it are live: its counter has wrapped round to 0. */
  method CopiedToWrap() returns (store: Store<int>, h: Handle, handles: nat)
    ensures fresh(store) && store.Valid() && |store.data| == 1 && |store.data[0]| == 2
    ensures h == Handle(0, 1) && handles == RefModulus && store.live[h] == handles
    ensures store.data[0][1] == Slot(0, Object(7))
  {
    store := new Store<int>(1);
    h := store.Create(0, 7);
    handles := 1;
    while handles < RefModulus
      invariant 1 <= handles <= RefModulus
      invariant store.Valid() && |store.data| == 1 && h == Handle(0, 1) && |store.data[0]| == 2
      invariant store.data[0][1] == Slot(if handles < RefModulus then handles else 0, Object(7))
      invariant store.live[h] == handles
    {
      var copy := store.Copy(h);
      handles := handles + 1;
    }
  }

  /** The wrap-around of the 16-bit counter, end to end: one object and 2^16 - 1 copies of
      its handle, all of them live, bring its counter back to 0, and the next sweep
      reclaims the object under them; dereferencing any of the handles then finds
      nothing. */
  method CopiesWrapAround() returns (handles: nat, obj: Option<int>)
    ensures handles == RefModulus && obj == None
  {
    var store, h;
    store, h, handles := CopiedToWrap();
    SweepReclaims(store.data[0], store.free[0], 1);
    store.Clean();
    obj := store.Deref(h);
  }
}
