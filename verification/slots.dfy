/** One storage cell of an arena: either a hole threaded into the free list
    or a live object, together with its 16-bit live-reference counter. */
module Slots {

  datatype Option<T> = None | Some(value: T)

  /** The counter is an unsigned 16-bit integer: every update wraps modulo 2^16. */
  const RefModulus: nat := 0x1_0000

  /** `references++` on a `uint16_t`. */
  function Inc16(r: nat): (r': nat)
    ensures r' < RefModulus
    ensures r + 1 < RefModulus ==> r' == r + 1
    ensures r + 1 == RefModulus ==> r' == 0
  {
    (r + 1) % RefModulus
  }

  /** `references--` on a `uint16_t`: zero wraps round to 65535. */
  function Dec16(r: nat): (r': nat)
    ensures r' < RefModulus
    ensures 0 < r <= RefModulus ==> r' == r - 1
    ensures r == 0 ==> r' == RefModulus - 1
  {
    (r - 1) % RefModulus
  }

  /** Incrementing and then decrementing a counter in range leaves it as it was,
      and so does the reverse order, even across the wrap-around. */
  lemma IncDecInverse(r: nat)
    requires r < RefModulus
    ensures Dec16(Inc16(r)) == r
    ensures Inc16(Dec16(r)) == r
  {
    if r + 1 == RefModulus {
      assert Inc16(r) == 0;
    }
    if r == 0 {
      assert Dec16(r) == RefModulus - 1;
    }
  }

  /** A 16-bit counter tracks a true count modulo 2^16: incrementing the reduced count
      reduces the incremented count, and likewise decrementing a positive count. */
  lemma CounterTracks(a: nat)
    ensures Inc16(a % RefModulus) == (a + 1) % RefModulus
    ensures a > 0 ==> Dec16(a % RefModulus) == (a - 1) % RefModulus
  {
    var q := a / RefModulus;
    var r := a % RefModulus;
    assert a == q * RefModulus + r;
    if r + 1 == RefModulus {
      assert a + 1 == (q + 1) * RefModulus;
    }
    if a > 0 && r == 0 {
      assert q > 0;
      assert a - 1 == (q - 1) * RefModulus + (RefModulus - 1);
    }
  }

  /** The two alternatives of a slot: a hole holding the index of the next hole
      (0 ends the list), or an object. */
  datatype Content<T> = Hole(nextHole: nat) | Object(obj: T)

  datatype Slot<T> = Slot(references: nat, content: Content<T>)
  {
    /** A slot that does not hold an object is a hole. */
    function IsObject(): (r: bool)
      ensures !r <==> content.Hole?
    {
      content.Object?
    }

    /** The link of a hole, or nothing when the slot holds an object. */
    function GetHole(): (r: Option<nat>)
      ensures r.Some? <==> !IsObject()
      ensures r.Some? ==> content == Hole(r.value)
    {
      match content
      case Hole(next) => Some(next)
      case Object(_) => None
    }

    /** The link of a slot the caller knows to be a hole. */
    function NextHole(): (r: nat)
      requires !IsObject()
      ensures content == Hole(r)
    {
      content.nextHole
    }

    /** The stored object, or nothing when the slot is a hole. */
    function GetObject(): (r: Option<T>)
      ensures r.Some? <==> IsObject()
      ensures r.Some? ==> content == Object(r.value)
    {
      match content
      case Hole(_) => None
      case Object(x) => Some(x)
    }
  }
}
