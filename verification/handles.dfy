/** Handles: an index into the arena of one object kind, 0 being the empty handle.
    Comparison looks at the index alone. */
module Handles {

  /** `kind` names the arena the handle points into (the object type of the store's
      type list); `index` is the slot, 0 for the empty handle. The handle's pointer
      to its store is implicit: every handle belongs to the one store it is used with. */
  datatype Handle = Handle(kind: nat, index: nat)

  /** The default-constructed handle of a kind. */
  function Empty(kind: nat): (h: Handle)
    ensures h.kind == kind && h.index == 0
  {
    Handle(kind, 0)
  }

  /** `operator==`: two handles are equal when neither is before the other. */
  function Equal(a: Handle, b: Handle): (r: bool)
    ensures r <==> !Less(a, b) && !Less(b, a)
  {
    a.index == b.index
  }

  /** `operator<`: only a non-empty handle is after another one, and never after an
      equal one. */
  function Less(a: Handle, b: Handle): (r: bool)
    ensures r ==> b.index > 0 && a.index != b.index
  {
    a.index < b.index
  }

  /** Equality and order look at the slot index only: `Equal` is an equivalence,
      `Less` a strict order, exactly one of `Less(a, b)`, `Equal(a, b)`, `Less(b, a)`
      holds, and two handles with the same index are equal whatever they point into. */
  lemma IndexOrder(a: Handle, b: Handle, c: Handle)
    ensures Equal(a, a)
    ensures Equal(a, b) ==> Equal(b, a)
    ensures Equal(a, b) && Equal(b, c) ==> Equal(a, c)
    ensures !Less(a, a)
    ensures Less(a, b) && Less(b, c) ==> Less(a, c)
    ensures (if Less(a, b) then 1 else 0) + (if Equal(a, b) then 1 else 0) + (if Less(b, a) then 1 else 0) == 1
    ensures a.index == b.index ==> Equal(a, b) && !Less(a, b)
    ensures Equal(a, b) <==> !Less(a, b) && !Less(b, a)
  {
  }
}
