/** The slot vector of one object kind, as a value: slot 0 is the sentinel hole
    whose link is the head of the free list threaded through the holes.
    Everything here is the specification the store's methods are proved against. */
module Arenas {
  import opened Slots

  /** Slot 0 exists and is a hole. */
  ghost predicate HasSentinel<T>(vec: seq<Slot<T>>) {
    |vec| > 0 && !vec[0].IsObject()
  }

  /** The first index of a list, 0 standing for the end of the list. */
  function Head(list: seq<nat>): nat {
    if list == [] then 0 else list[0]
  }

  /** The index the free list links to after its `j`-th entry, 0 after the last. */
  function After(list: seq<nat>, j: nat): nat {
    if j + 1 < |list| then list[j + 1] else 0
  }

  /** No index occurs twice in `list`. */
  ghost predicate Distinct(list: seq<nat>) {
    forall j, j' :: 0 <= j < j' < |list| ==> list[j] != list[j']
  }

  /** Every entry of `list` is a hole of `vec`, in bounds and other than 0. */
  ghost predicate HolesInBounds<T>(vec: seq<Slot<T>>, list: seq<nat>) {
    forall j :: 0 <= j < |list| ==> 0 < list[j] < |vec| && !vec[list[j]].IsObject()
  }

  /** The sentinel links to the first entry, and each entry to the next one
      (the last to 0). */
  ghost predicate Linked<T>(vec: seq<Slot<T>>, list: seq<nat>)
    requires HasSentinel(vec) && HolesInBounds(vec, list)
  {
    && vec[0].NextHole() == Head(list)
    && (forall j :: 0 <= j < |list| ==> vec[list[j]].NextHole() == After(list, j))
  }

  /** `list` is the free list of `vec`: the chain of links from the sentinel visits
      exactly the indices of `list`, in order, each a hole in bounds and other than 0,
      none twice, and the last link is 0. */
  ghost predicate IsFreeList<T>(vec: seq<Slot<T>>, list: seq<nat>) {
    && HasSentinel(vec)
    && HolesInBounds(vec, list)
    && Distinct(list)
    && Linked(vec, list)
  }

  /** Every hole other than the sentinel is on `list`. */
  ghost predicate HolesListed<T>(vec: seq<Slot<T>>, list: seq<nat>) {
    forall i :: 0 < i < |vec| && !vec[i].IsObject() ==> i in list
  }

  /** Every counter fits in 16 bits. */
  ghost predicate CountersFit<T>(vec: seq<Slot<T>>) {
    forall i :: 0 <= i < |vec| ==> vec[i].references < RefModulus
  }

  /** The arena invariant: a well-formed free list that holds every hole other than
      the sentinel, and every counter within 16 bits. */
  ghost predicate Valid<T>(vec: seq<Slot<T>>, list: seq<nat>) {
    && IsFreeList(vec, list)
    && HolesListed(vec, list)
    && CountersFit(vec)
  }

  /** An arena of a new store: the sentinel alone, with an empty free list. */
  function EmptyArena<T>(): (vec: seq<Slot<T>>)
    ensures Valid(vec, [])
    ensures Capacity(vec) == 0
  {
    [Slot(0, Hole(0))]
  }

  /** Usable slots: the length without the sentinel. */
  function Capacity<T>(vec: seq<Slot<T>>): nat
    requires |vec| > 0
  {
    |vec| - 1
  }

  /** The object in slot `i`, if it holds one. */
  function Get<T>(vec: seq<Slot<T>>, i: nat): Option<T>
    requires i < |vec|
  {
    vec[i].GetObject()
  }

  // ---------------------------------------------------------------------------
  // The free list is determined by the vector, and bounded by the capacity.

  /** Two free lists of one vector agree on their first `n` entries. */
  lemma {:induction false} FreeListsAgree<T>(vec: seq<Slot<T>>, a: seq<nat>, b: seq<nat>, n: nat)
    requires IsFreeList(vec, a) && IsFreeList(vec, b)
    requires n <= |a| && n <= |b|
    ensures forall j :: 0 <= j < n ==> a[j] == b[j]
  {
    if n > 0 {
      FreeListsAgree(vec, a, b, n - 1);
      if n == 1 {
        assert a[0] == Head(a) == vec[0].NextHole() == Head(b) == b[0];
      } else {
        assert a[n - 1] == After(a, n - 2) == vec[a[n - 2]].NextHole() == After(b, n - 2) == b[n - 1];
      }
    }
  }

  /** The chain ends after its `n`-th entry exactly when the link read there is 0. */
  lemma EndOfList<T>(vec: seq<Slot<T>>, list: seq<nat>, n: nat)
    requires IsFreeList(vec, list) && n <= |list|
    ensures n == 0 ==> (n == |list| <==> vec[0].NextHole() == 0)
    ensures n > 0 ==> (n == |list| <==> vec[list[n - 1]].NextHole() == 0)
  {
    if n < |list| {
      assert list[n] > 0;
      if n > 0 {
        assert vec[list[n - 1]].NextHole() == After(list, n - 1) == list[n];
      }
    }
  }

  /** Following the links from the sentinel determines the free list: a vector has
      at most one. */
  lemma FreeListUnique<T>(vec: seq<Slot<T>>, a: seq<nat>, b: seq<nat>)
    requires IsFreeList(vec, a) && IsFreeList(vec, b)
    ensures a == b
  {
    var n := if |a| < |b| then |a| else |b|;
    FreeListsAgree(vec, a, b, n);
    EndOfList(vec, a, n);
    EndOfList(vec, b, n);
    assert |a| == n == |b|;
  }

  /** A list of distinct indices, each strictly between 0 and `n`, has at most
      `n - 1` entries. */
  lemma {:induction false} DistinctBelow(list: seq<nat>, n: nat)
    requires Distinct(list)
    requires forall j :: 0 <= j < |list| ==> 0 < list[j] < n
    ensures list != [] ==> |list| + 1 <= n
  {
    FirstEntryBound(list, n);
    if list != [] && n > 1 {
      var top := n - 1;
      if top in list {
        var p :| 0 <= p < |list| && list[p] == top;
        var rest := list[..p] + list[p + 1..];
        forall j | 0 <= j < |rest|
          ensures rest[j] == (if j < p then list[j] else list[j + 1])
          ensures 0 < rest[j] < top
        {
          if j < p {
            assert list[j] != list[p];
          } else {
            assert list[j + 1] != list[p];
          }
        }
        forall j, j' | 0 <= j < j' < |rest|
          ensures rest[j] != rest[j']
        {
        }
        DistinctBelow(rest, top);
      } else {
        forall j | 0 <= j < |list|
          ensures list[j] < top
        {
        }
        DistinctBelow(list, top);
      }
    }
  }

  lemma FirstEntryBound(list: seq<nat>, n: nat)
    ensures list != [] && (forall j :: 0 <= j < |list| ==> 0 < list[j] < n) ==> 0 < list[0] < n
  {
  }

  /** free_capacity never exceeds capacity. */
  lemma FreeListBound<T>(vec: seq<Slot<T>>, list: seq<nat>)
    requires IsFreeList(vec, list)
    ensures |list| <= Capacity(vec)
  {
    DistinctBelow(list, |vec|);
  }

  // ---------------------------------------------------------------------------
  // Reference registration.

  /** The vector after `references++` on slot `i`. */
  function Incremented<T>(vec: seq<Slot<T>>, i: nat): (r: seq<Slot<T>>)
    requires i < |vec|
  {
    vec[i := vec[i].(references := Inc16(vec[i].references))]
  }

  /** The vector after `references--` on slot `i`. */
  function Decremented<T>(vec: seq<Slot<T>>, i: nat): (r: seq<Slot<T>>)
    requires i < |vec|
  {
    vec[i := vec[i].(references := Dec16(vec[i].references))]
  }

  /** Registering a reference changes only the counter of its slot, by one modulo
      2^16, and keeps the arena invariant with the same free list. */
  lemma IncrementedSpec<T>(vec: seq<Slot<T>>, list: seq<nat>, i: nat)
    requires Valid(vec, list) && i < |vec|
    ensures Valid(Incremented(vec, i), list)
    ensures |Incremented(vec, i)| == |vec|
    ensures Incremented(vec, i)[i].content == vec[i].content
    ensures vec[i].references + 1 < RefModulus ==> Incremented(vec, i)[i].references == vec[i].references + 1
    ensures forall j :: 0 <= j < |vec| && j != i ==> Incremented(vec, i)[j] == vec[j]
  {
    var w := Incremented(vec, i);
    assert forall j :: 0 <= j < |vec| ==> w[j].content == vec[j].content;
  }

  /** Deregistering a reference changes only the counter of its slot, by one modulo
      2^16, and keeps the arena invariant with the same free list. */
  lemma DecrementedSpec<T>(vec: seq<Slot<T>>, list: seq<nat>, i: nat)
    requires Valid(vec, list) && i < |vec|
    ensures Valid(Decremented(vec, i), list)
    ensures |Decremented(vec, i)| == |vec|
    ensures Decremented(vec, i)[i].content == vec[i].content
    ensures vec[i].references > 0 ==> Decremented(vec, i)[i].references == vec[i].references - 1
    ensures forall j :: 0 <= j < |vec| && j != i ==> Decremented(vec, i)[j] == vec[j]
  {
    var w := Decremented(vec, i);
    assert forall j :: 0 <= j < |vec| ==> w[j].content == vec[j].content;
  }

  /** A registration undone by a deregistration leaves the vector as it was. */
  lemma IncrementThenDecrement<T>(vec: seq<Slot<T>>, list: seq<nat>, i: nat)
    requires Valid(vec, list) && i < |vec|
    ensures Decremented(Incremented(vec, i), i) == vec
  {
    IncDecInverse(vec[i].references);
    assert Decremented(Incremented(vec, i), i)[i] == vec[i];
  }

  // ---------------------------------------------------------------------------
  // Creation.

  /** The free-list head names a hole, or is 0: what Create dereferences. */
  ghost predicate CanAllocate<T>(vec: seq<Slot<T>>) {
    && HasSentinel(vec)
    && var head := vec[0].NextHole();
       head == 0 || (head < |vec| && !vec[head].IsObject())
  }

  lemma ValidCanAllocate<T>(vec: seq<Slot<T>>, list: seq<nat>)
    requires Valid(vec, list)
    ensures CanAllocate(vec)
  {
    if list != [] {
      assert vec[0].NextHole() == list[0];
    }
  }

  /** The store's half of Create, before the returned handle registers itself:
      with an empty free list a new slot with counter 0 is appended; otherwise the
      head hole is unlinked and overwritten with the object and counter 1.
      Yields the new vector and the object's index. */
  function Allocate<T>(vec: seq<Slot<T>>, v: T): (r: (seq<Slot<T>>, nat))
    requires CanAllocate(vec)
    ensures r.1 < |r.0|
  {
    var head := vec[0].NextHole();
    if head == 0 then
      (vec + [Slot(0, Object(v))], |vec|)
    else
      var unlinked := vec[0 := vec[0].(content := Hole(vec[head].NextHole()))];
      (unlinked[head := Slot(1, Object(v))], head)
  }

  /** Create as written: Allocate, then the handle constructor registers one reference. */
  function Created<T>(vec: seq<Slot<T>>, v: T): (r: (seq<Slot<T>>, nat))
    requires CanAllocate(vec)
    ensures r.1 < |r.0|
  {
    var (w, i) := Allocate(vec, v);
    (Incremented(w, i), i)
  }

  /** Appending an object to an arena without holes keeps the invariant. */
  lemma AppendValid<T>(vec: seq<Slot<T>>, v: T)
    requires Valid(vec, [])
    ensures Valid(vec + [Slot(0, Object(v))], [])
  {
    var w := vec + [Slot(0, Object(v))];
    assert w[0] == vec[0];
    assert forall k :: 0 <= k < |vec| ==> w[k] == vec[k];
  }

  /** Overwriting the head hole with an object, and linking the sentinel past it,
      keeps the invariant with the rest of the free list. */
  lemma ReuseValid<T>(vec: seq<Slot<T>>, list: seq<nat>, s: Slot<T>)
    requires Valid(vec, list) && list != [] && s.IsObject() && s.references < RefModulus
    ensures var i := list[0];
      Valid(vec[0 := vec[0].(content := Hole(vec[i].NextHole()))][i := s], list[1..])
  {
    ReuseFreeList(vec, list, s);
    ReuseListed(vec, list, s);
  }

  /** The rest of the free list is the free list of the arena after the reuse. */
  lemma ReuseFreeList<T>(vec: seq<Slot<T>>, list: seq<nat>, s: Slot<T>)
    requires IsFreeList(vec, list) && list != []
    ensures var i := list[0];
      IsFreeList(vec[0 := vec[0].(content := Hole(vec[i].NextHole()))][i := s], list[1..])
  {
    var i := list[0];
    var w := vec[0 := vec[0].(content := Hole(vec[i].NextHole()))][i := s];
    var rest := list[1..];
    assert HasSentinel(w);
    forall j | 0 <= j < |rest|
      ensures rest[j] == list[j + 1] && rest[j] != i && w[rest[j]] == vec[rest[j]]
    {
      assert list[j + 1] != list[0];
    }
    assert HolesInBounds(w, rest);
    assert Distinct(rest);
    assert w[0].NextHole() == vec[i].NextHole() == After(list, 0) == Head(rest);
    forall j | 0 <= j < |rest|
      ensures w[rest[j]].NextHole() == After(rest, j)
    {
      assert vec[list[j + 1]].NextHole() == After(list, j + 1) == After(rest, j);
    }
    assert Linked(w, rest);
  }

  /** After the reuse every hole other than the sentinel is on the rest of the list. */
  lemma ReuseListed<T>(vec: seq<Slot<T>>, list: seq<nat>, s: Slot<T>)
    requires HasSentinel(vec) && HolesListed(vec, list) && list != [] && 0 < list[0] < |vec|
    requires !vec[list[0]].IsObject()
    requires s.IsObject()
    ensures var i := list[0];
      HolesListed(vec[0 := vec[0].(content := Hole(vec[i].NextHole()))][i := s], list[1..])
  {
    var i := list[0];
    var w := vec[0 := vec[0].(content := Hole(vec[i].NextHole()))][i := s];
    var rest := list[1..];
    forall k | 0 < k < |w| && !w[k].IsObject()
      ensures k in rest
    {
      assert k != i && w[k] == vec[k];
      var j :| 0 <= j < |list| && list[j] == k;
      assert j > 0 && rest[j - 1] == k;
    }
  }

  /** Allocation keeps the arena invariant; the free list loses its head, if any. */
  lemma AllocateValid<T>(vec: seq<Slot<T>>, list: seq<nat>, v: T)
    requires Valid(vec, list)
    ensures CanAllocate(vec)
    ensures Valid(Allocate(vec, v).0, if list == [] then [] else list[1..])
  {
    ValidCanAllocate(vec, list);
    if list == [] {
      AppendValid(vec, v);
    } else {
      assert vec[0].NextHole() == list[0] != 0;
      ReuseValid(vec, list, Slot(1, Object(v)));
    }
  }

  /** Create with an empty free list appends exactly one slot, at index old length
      (never 0), holding the value with counter 1, and leaves every other slot,
      the free list and the invariant alone. */
  lemma CreateAppends<T>(vec: seq<Slot<T>>, list: seq<nat>, v: T)
    requires Valid(vec, list) && vec[0].NextHole() == 0
    ensures CanAllocate(vec) && list == []
    ensures var (w, i) := Created(vec, v);
      && i == |vec| && i != 0
      && |w| == |vec| + 1 && Capacity(w) == Capacity(vec) + 1
      && w[..|vec|] == vec
      && w[i] == Slot(1, Object(v))
      && Valid(w, list)
  {
    AllocateValid(vec, list, v);
    var (a, i) := Allocate(vec, v);
    IncrementedSpec(a, list, i);
    assert Created(vec, v).0[..|vec|] == vec;
  }

  /** Create with a non-empty free list reuses its head h (never 0): slot 0 now links
      to h's successor, the capacity is unchanged, the free list loses exactly h,
      and h holds the value with counter 2 (1 from the store, 1 from the handle). */
  lemma CreateReuses<T>(vec: seq<Slot<T>>, list: seq<nat>, v: T)
    requires Valid(vec, list) && vec[0].NextHole() != 0
    ensures CanAllocate(vec) && list != []
    ensures var (w, i) := Created(vec, v);
      && i == list[0] && i != 0
      && |w| == |vec| && Capacity(w) == Capacity(vec)
      && w[0].NextHole() == vec[i].NextHole()
      && w[0].references == vec[0].references
      && w[i] == Slot(2, Object(v))
      && (forall j :: 0 < j < |vec| && j != i ==> w[j] == vec[j])
      && Valid(w, list[1..])
      && |list[1..]| == |list| - 1
  {
    AllocateValid(vec, list, v);
    var (a, i) := Allocate(vec, v);
    IncrementedSpec(a, list[1..], i);
  }

  /** With nothing ever freed, a run of creations appends one slot per value at
      consecutive indices, each with counter 1 (the construction of a fixture). */
  ghost function CreateAll<T>(vec: seq<Slot<T>>, vs: seq<T>): (r: (seq<Slot<T>>, seq<nat>))
    requires Valid(vec, [])
    ensures Valid(r.0, [])
    ensures |r.0| == |vec| + |vs| && r.0[..|vec|] == vec
    ensures |r.1| == |vs|
    ensures forall j :: 0 <= j < |vs| ==> r.1[j] == |vec| + j && r.0[|vec| + j] == Slot(1, Object(vs[j]))
    decreases |vs|
  {
    if vs == [] then (vec, [])
    else
      CreateAppends(vec, [], vs[0]);
      var (w, i) := Created(vec, vs[0]);
      var (u, rest) := CreateAll(w, vs[1..]);
      assert u[..|vec|] == u[..|w|][..|vec|];
      (u, [i] + rest)
  }

  // ---------------------------------------------------------------------------
  // The sweep.

  /** An object no handle refers to any more. */
  predicate Reclaimable<T>(s: Slot<T>) {
    s.IsObject() && s.references == 0
  }

  /** One iteration of the sweep: a reclaimable slot `i` becomes a hole linked to the
      current head (keeping its counter), and becomes the new head. */
  function Step<T>(vec: seq<Slot<T>>, i: nat): (r: seq<Slot<T>>)
    requires HasSentinel(vec) && i < |vec|
    ensures |r| == |vec| && HasSentinel(r)
  {
    if Reclaimable(vec[i]) then
      var holed := vec[i := vec[i].(content := Hole(vec[0].NextHole()))];
      holed[0 := holed[0].(content := Hole(i))]
    else vec
  }

  /** The sweep from slot `i` onwards. */
  function SweepFrom<T>(vec: seq<Slot<T>>, i: nat): (r: seq<Slot<T>>)
    requires HasSentinel(vec) && i <= |vec|
    ensures |r| == |vec| && HasSentinel(r)
    decreases |vec| - i
  {
    if i == |vec| then vec else SweepFrom(Step(vec, i), i + 1)
  }

  /** The whole ascending pass over the vector. */
  function Swept<T>(vec: seq<Slot<T>>): (r: seq<Slot<T>>)
    requires HasSentinel(vec)
    ensures |r| == |vec| && HasSentinel(r)
  {
    SweepFrom(vec, 0)
  }

  /** The reclaimable indices from `i` on, highest first: the order in which the
      sweep leaves them at the front of the free list. */
  function ReclaimedFrom<T>(vec: seq<Slot<T>>, i: nat): seq<nat>
    decreases |vec| - i
  {
    if i >= |vec| then []
    else ReclaimedFrom(vec, i + 1) + (if Reclaimable(vec[i]) then [i] else [])
  }

  function Reclaimed<T>(vec: seq<Slot<T>>): seq<nat> {
    ReclaimedFrom(vec, 0)
  }

  /** ReclaimedFrom lists exactly the reclaimable indices at or after `i`, in strictly
      descending order. */
  lemma {:induction false} ReclaimedFromSpec<T>(vec: seq<Slot<T>>, i: nat)
    ensures forall x :: x in ReclaimedFrom(vec, i) <==> i <= x < |vec| && Reclaimable(vec[x])
    ensures forall a, b :: 0 <= a < b < |ReclaimedFrom(vec, i)| ==>
      ReclaimedFrom(vec, i)[a] > ReclaimedFrom(vec, i)[b]
    decreases |vec| - i
  {
    if i < |vec| {
      ReclaimedFromSpec(vec, i + 1);
      var tail := ReclaimedFrom(vec, i + 1);
      var r := ReclaimedFrom(vec, i);
      if Reclaimable(vec[i]) {
        assert r == tail + [i];
        forall a, b | 0 <= a < b < |r|
          ensures r[a] > r[b]
        {
          assert r[a] == tail[a] && tail[a] in tail;
          if b < |tail| {
            assert r[b] == tail[b];
          }
        }
      } else {
        assert r == tail;
      }
    }
  }

  /** The reclaimed list depends only on the slots it scans. */
  lemma {:induction false} ReclaimedFromFrame<T>(v1: seq<Slot<T>>, v2: seq<Slot<T>>, i: nat)
    requires |v1| == |v2|
    requires forall j :: i <= j < |v1| ==> v1[j] == v2[j]
    ensures ReclaimedFrom(v1, i) == ReclaimedFrom(v2, i)
    decreases |v1| - i
  {
    if i < |v1| {
      ReclaimedFromFrame(v1, v2, i + 1);
    }
  }

  /** A reclaiming step rewrites slot `i` and the sentinel's link, nothing else. */
  lemma StepAt<T>(vec: seq<Slot<T>>, i: nat)
    requires HasSentinel(vec) && i < |vec| && Reclaimable(vec[i])
    ensures var w := Step(vec, i);
      && i != 0
      && w[0] == vec[0].(content := Hole(i))
      && w[i] == vec[i].(content := Hole(vec[0].NextHole()))
      && (forall k :: 0 < k < |vec| && k != i ==> w[k] == vec[k])
  {
  }

  /** A reclaimable slot is not on the free list. */
  lemma NotListed<T>(vec: seq<Slot<T>>, list: seq<nat>, i: nat)
    requires HolesInBounds(vec, list) && i < |vec| && vec[i].IsObject()
    ensures forall j :: 0 <= j < |list| ==> list[j] != i
  {
  }

  /** The free list grown by a reclaimed slot is still a list of distinct holes. */
  lemma StepHoles<T>(vec: seq<Slot<T>>, list: seq<nat>, i: nat)
    requires HasSentinel(vec) && HolesInBounds(vec, list) && i < |vec| && Reclaimable(vec[i])
    requires forall j :: 0 <= j < |list| ==> list[j] != i
    ensures HolesInBounds(Step(vec, i), [i] + list)
  {
    var w := Step(vec, i);
    var list' := [i] + list;
    StepAt(vec, i);
    forall j | 0 <= j < |list'|
      ensures 0 < list'[j] < |w| && !w[list'[j]].IsObject()
    {
      if j > 0 {
        assert list'[j] == list[j - 1] && w[list[j - 1]] == vec[list[j - 1]];
      }
    }
  }

  /** Pushing an index not yet on a list of distinct indices keeps them distinct. */
  lemma PushDistinct(list: seq<nat>, i: nat)
    requires Distinct(list)
    requires forall j :: 0 <= j < |list| ==> list[j] != i
    ensures Distinct([i] + list)
  {
    var list' := [i] + list;
    forall j, j' | 0 <= j < j' < |list'|
      ensures list'[j] != list'[j']
    {
      assert list'[j'] == list[j' - 1];
      if j > 0 {
        assert list'[j] == list[j - 1];
      }
    }
  }

  /** After a reclaiming step, the links from the sentinel run through `i` and then
      through the old list. */
  lemma StepLinked<T>(vec: seq<Slot<T>>, list: seq<nat>, i: nat)
    requires Valid(vec, list) && i < |vec| && Reclaimable(vec[i])
    requires HolesInBounds(Step(vec, i), [i] + list)
    requires forall j :: 0 <= j < |list| ==> list[j] != i
    ensures Linked(Step(vec, i), [i] + list)
  {
    var w := Step(vec, i);
    var list' := [i] + list;
    StepAt(vec, i);
    assert w[0].NextHole() == i == Head(list');
    forall j | 0 <= j < |list'|
      ensures w[list'[j]].NextHole() == After(list', j)
    {
      if j > 0 {
        assert list'[j] == list[j - 1] && w[list[j - 1]] == vec[list[j - 1]];
        assert vec[list[j - 1]].NextHole() == After(list, j - 1) == After(list', j);
      } else {
        assert After(list', 0) == Head(list);
      }
    }
  }

  /** One reclaiming step pushes `i` onto the front of the free list. */
  lemma StepValid<T>(vec: seq<Slot<T>>, list: seq<nat>, i: nat)
    requires Valid(vec, list) && i < |vec| && Reclaimable(vec[i])
    ensures Valid(Step(vec, i), [i] + list)
  {
    var w := Step(vec, i);
    StepAt(vec, i);
    NotListed(vec, list, i);
    StepHoles(vec, list, i);
    PushDistinct(list, i);
    StepLinked(vec, list, i);
    forall k | 0 < k < |w| && !w[k].IsObject()
      ensures k in [i] + list
    {
      if k != i {
        assert w[k] == vec[k];
      }
    }
    assert forall k :: 0 <= k < |w| ==> w[k].references == vec[k].references;
  }

  /** The free list after one iteration of the sweep. */
  function StepList<T>(vec: seq<Slot<T>>, list: seq<nat>, i: nat): seq<nat>
    requires i < |vec|
  {
    if Reclaimable(vec[i]) then [i] + list else list
  }

  /** The indices still to be reclaimed after one iteration, followed by the new
      list, are those the whole remaining pass would push. */
  lemma StepReclaimedList<T>(vec: seq<Slot<T>>, list: seq<nat>, i: nat)
    requires HasSentinel(vec) && i < |vec|
    ensures ReclaimedFrom(Step(vec, i), i + 1) + StepList(vec, list, i) == ReclaimedFrom(vec, i) + list
  {
    var w := Step(vec, i);
    var tail := ReclaimedFrom(vec, i + 1);
    if Reclaimable(vec[i]) {
      StepAt(vec, i);
      ReclaimedFromFrame(w, vec, i + 1);
      assert ReclaimedFrom(vec, i) == tail + [i];
      assert tail + ([i] + list) == (tail + [i]) + list;
    } else {
      assert ReclaimedFrom(vec, i) == tail + [];
    }
  }

  /** One iteration keeps the invariant with the list it leaves. */
  lemma StepKeepsValid<T>(vec: seq<Slot<T>>, list: seq<nat>, i: nat)
    requires Valid(vec, list) && i < |vec|
    ensures Valid(Step(vec, i), StepList(vec, list, i))
  {
    if Reclaimable(vec[i]) {
      StepValid(vec, list, i);
    }
  }

  /** The sweep from `i` on keeps the invariant, putting the reclaimed indices (highest
      first) in front of the free list. */
  lemma {:induction false} SweepFromValid<T>(vec: seq<Slot<T>>, list: seq<nat>, i: nat)
    requires Valid(vec, list) && i <= |vec|
    ensures Valid(SweepFrom(vec, i), ReclaimedFrom(vec, i) + list)
    decreases |vec| - i
  {
    if i == |vec| {
      assert ReclaimedFrom(vec, i) + list == list;
    } else {
      StepKeepsValid(vec, list, i);
      StepReclaimedList(vec, list, i);
      SweepFromValid(Step(vec, i), StepList(vec, list, i), i + 1);
    }
  }

  /** Slot by slot, the sweep from `i` on turns exactly the reclaimable slots at or
      after `i` into holes, keeps every counter, and leaves every other slot other
      than the sentinel unchanged. */
  lemma {:induction false} SweepFromSlots<T>(vec: seq<Slot<T>>, i: nat)
    requires HasSentinel(vec) && i <= |vec|
    ensures SweepFrom(vec, i)[0].references == vec[0].references
    ensures forall j :: 0 < j < |vec| ==>
      && SweepFrom(vec, i)[j].references == vec[j].references
      && (i <= j && Reclaimable(vec[j]) ==> !SweepFrom(vec, i)[j].IsObject())
      && (!(i <= j && Reclaimable(vec[j])) ==> SweepFrom(vec, i)[j] == vec[j])
    decreases |vec| - i
  {
    if i < |vec| {
      var w := Step(vec, i);
      SweepFromSlots(w, i + 1);
      assert forall j :: 0 < j < |vec| && j != i ==> w[j] == vec[j];
    }
  }

  /** Clean on one arena: exactly the reclaimable object slots (an object with counter 0)
      become holes, pushed onto the front of the free list in ascending order so that
      the highest becomes the head; every other slot, every counter and the capacity
      are unchanged, and the arena invariant is kept. */
  lemma SweepSpec<T>(vec: seq<Slot<T>>, list: seq<nat>)
    requires Valid(vec, list)
    ensures |Swept(vec)| == |vec| && Capacity(Swept(vec)) == Capacity(vec)
    ensures Valid(Swept(vec), Reclaimed(vec) + list)
    ensures forall x :: x in Reclaimed(vec) <==> 0 <= x < |vec| && Reclaimable(vec[x])
    ensures forall a, b :: 0 <= a < b < |Reclaimed(vec)| ==> Reclaimed(vec)[a] > Reclaimed(vec)[b]
    ensures Swept(vec)[0].references == vec[0].references
    ensures forall j :: 0 < j < |vec| ==>
      && Swept(vec)[j].references == vec[j].references
      && (Reclaimable(vec[j]) ==> !Swept(vec)[j].IsObject())
      && (!Reclaimable(vec[j]) ==> Swept(vec)[j] == vec[j])
  {
    SweepFromValid(vec, list, 0);
    SweepFromSlots(vec, 0);
    ReclaimedFromSpec(vec, 0);
  }

  /** The sweep keeps the length and every counter. */
  lemma SweptCounters<T>(vec: seq<Slot<T>>)
    requires HasSentinel(vec)
    ensures |Swept(vec)| == |vec|
    ensures forall j :: 0 <= j < |vec| ==> Swept(vec)[j].references == vec[j].references
  {
    SweepFromSlots(vec, 0);
  }

  /** A slot with a positive counter is not reclaimed, and the sweep leaves it as it was. */
  lemma SweepKeeps<T>(vec: seq<Slot<T>>, list: seq<nat>, i: nat)
    requires Valid(vec, list) && 0 < i < |vec| && vec[i].references > 0
    ensures i !in Reclaimed(vec) && Swept(vec)[i] == vec[i]
  {
    SweepSpec(vec, list);
  }

  /** An object slot with counter 0 is reclaimed, and the sweep turns it into a hole. */
  lemma SweepReclaims<T>(vec: seq<Slot<T>>, list: seq<nat>, i: nat)
    requires Valid(vec, list) && 0 < i < |vec| && vec[i].IsObject() && vec[i].references == 0
    ensures i in Reclaimed(vec) && !Swept(vec)[i].IsObject()
  {
    SweepSpec(vec, list);
  }

  /** When exactly one slot is reclaimable, the sweep reclaims exactly that one. */
  lemma ReclaimedSingleton<T>(vec: seq<Slot<T>>, x: nat)
    requires x < |vec| && Reclaimable(vec[x])
    requires forall j :: 0 <= j < |vec| && j != x ==> !Reclaimable(vec[j])
    ensures Reclaimed(vec) == [x]
  {
    ReclaimedFromSpec(vec, 0);
    var r := Reclaimed(vec);
    FrontEntries(r);
    assert x in r;
  }

  /** When no slot is reclaimable, the sweep reclaims nothing. */
  lemma ReclaimedNone<T>(vec: seq<Slot<T>>)
    requires forall j :: 0 <= j < |vec| ==> !Reclaimable(vec[j])
    ensures Reclaimed(vec) == []
  {
    ReclaimedFromSpec(vec, 0);
    FrontEntries(Reclaimed(vec));
  }

  lemma FrontEntries(r: seq<nat>)
    ensures |r| > 0 ==> r[0] in r
    ensures |r| > 1 ==> r[1] in r
  {
  }

  /** After a sweep reclaims at least one slot, the next Create reuses the highest
      reclaimed index (not a new one) and the slot then holds the new value. */
  lemma SweepThenReuse<T>(vec: seq<Slot<T>>, list: seq<nat>, v: T)
    requires Valid(vec, list) && Reclaimed(vec) != []
    ensures CanAllocate(Swept(vec))
    ensures var (w, i) := Created(Swept(vec), v);
      && i == Reclaimed(vec)[0] && i < |vec| && Reclaimable(vec[i])
      && (forall x :: x in Reclaimed(vec) ==> x <= i)
      && Get(w, i) == Some(v)
      && |w| == |vec|
  {
    SweepSpec(vec, list);
    var s := Swept(vec);
    var list' := Reclaimed(vec) + list;
    assert s[0].NextHole() == list'[0] == Reclaimed(vec)[0];
    CreateReuses(s, list', v);
    assert Reclaimed(vec)[0] in Reclaimed(vec);
    forall x | x in Reclaimed(vec)
      ensures x <= Reclaimed(vec)[0]
    {
      var b :| 0 <= b < |Reclaimed(vec)| && Reclaimed(vec)[b] == x;
    }
  }

  // ---------------------------------------------------------------------------
  // The reuse double count, and its correction.

  /** As written, an object created in a reused slot and then released by its only
      handle keeps counter 1, so the sweep never reclaims it. */
  lemma ReuseLeaks<T>(vec: seq<Slot<T>>, list: seq<nat>, v: T)
    requires Valid(vec, list) && list != []
    ensures CanAllocate(vec)
    ensures var (w, i) := Created(vec, v);
      var released := Decremented(w, i);
      && released[i].references == 1
      && i !in Reclaimed(released)
      && Swept(released)[i] == released[i] && Get(Swept(released), i) == Some(v)
  {
    assert vec[0].NextHole() == list[0] != 0;
    CreateReuses(vec, list, v);
    var (w, i) := Created(vec, v);
    DecrementedSpec(w, list[1..], i);
    var released := Decremented(w, i);
    SweepSpec(released, list[1..]);
  }

  /** The store's half of Create as evidently intended: the reused slot starts at
      counter 0 like an appended one, so that the handle's registration is the
      object's only reference. */
  function AllocateCorrected<T>(vec: seq<Slot<T>>, v: T): (r: (seq<Slot<T>>, nat))
    requires CanAllocate(vec)
    ensures r.1 < |r.0|
  {
    var head := vec[0].NextHole();
    if head == 0 then
      (vec + [Slot(0, Object(v))], |vec|)
    else
      var unlinked := vec[0 := vec[0].(content := Hole(vec[head].NextHole()))];
      (unlinked[head := Slot(0, Object(v))], head)
  }

  function CreatedCorrected<T>(vec: seq<Slot<T>>, v: T): (r: (seq<Slot<T>>, nat))
    requires CanAllocate(vec)
    ensures r.1 < |r.0|
  {
    var (w, i) := AllocateCorrected(vec, v);
    (Incremented(w, i), i)
  }

  /** The corrected allocation keeps the invariant, places the object with counter 0
      at an index other than 0, and takes the head off the free list. */
  lemma AllocateCorrectedValid<T>(vec: seq<Slot<T>>, list: seq<nat>, v: T)
    requires Valid(vec, list)
    ensures CanAllocate(vec)
    ensures var (a, i) := AllocateCorrected(vec, v);
      && i != 0 && a[i] == Slot(0, Object(v))
      && (forall j :: 0 < j < |vec| && j != i ==> a[j] == vec[j])
      && Valid(a, if list == [] then [] else list[1..])
  {
    ValidCanAllocate(vec, list);
    if list == [] {
      assert vec[0].NextHole() == 0;
      AppendValid(vec, v);
    } else {
      assert vec[0].NextHole() == list[0] != 0;
      ReuseValid(vec, list, Slot(0, Object(v)));
    }
  }

  /** With the correction, a new object has counter 1 on both paths, the free list
      evolves as before, and once its only handle is released the next sweep
      reclaims it. */
  lemma CorrectedCreateReclaimable<T>(vec: seq<Slot<T>>, list: seq<nat>, v: T)
    requires Valid(vec, list)
    ensures CanAllocate(vec)
    ensures var (w, i) := CreatedCorrected(vec, v);
      var list' := if list == [] then [] else list[1..];
      var released := Decremented(w, i);
      && w[i] == Slot(1, Object(v))
      && i != 0
      && Valid(w, list')
      && released[i] == Slot(0, Object(v))
      && i in Reclaimed(released)
      && !Swept(released)[i].IsObject()
  {
    AllocateCorrectedValid(vec, list, v);
    var list' := if list == [] then [] else list[1..];
    var (a, i) := AllocateCorrected(vec, v);
    var w := Incremented(a, i);
    assert Valid(w, list') && w[i] == Slot(1, Object(v)) by {
      IncrementedSpec(a, list', i);
    }
    var released := Decremented(w, i);
    assert Valid(released, list') && released[i] == Slot(0, Object(v)) by {
      DecrementedSpec(w, list', i);
    }
    assert i in Reclaimed(released) && !Swept(released)[i].IsObject() by {
      SweepSpec(released, list');
    }
  }
}
