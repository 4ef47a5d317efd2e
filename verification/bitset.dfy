/** A fixed-size array of bits with bounds-checked, permissive access:
    reading outside the range yields false and writing outside it does nothing.
    Copying (the copy constructor and assignment) has value semantics. */
module Bitset {

  /** The bits of a cleared bitset of `n` bits: all of them false. */
  function AllClear(n: nat): (bits: seq<bool>)
  {
    seq(n, _ => false)
  }

  class DynamicBitset {
    var size: int
    var data: array<bool>

    /** The object invariant: the buffer holds exactly `size` bits. */
    ghost predicate Valid()
      reads this
    {
      data.Length == size
    }

    /** The abstract value of the bitset: its bits, in index order. */
    ghost function Bits(): seq<bool>
      reads this, data
    {
      data[..]
    }

    /** A bitset of `n` bits, all of them clear. */
    constructor (n: int)
      requires n >= 0
      ensures Valid() && fresh(data)
      ensures size == n && Bits() == AllClear(n)
    {
      size := n;
      data := new bool[n](_ => false);
    }

    /** The copy constructor: a new buffer holding the same bits as `other`. */
    constructor Copy(other: DynamicBitset)
      requires other.Valid()
      ensures Valid() && fresh(data)
      ensures size == other.size && Bits() == other.Bits()
    {
      var a := new bool[other.size];
      for i := 0 to other.size
        invariant a[..i] == other.data[..i]
      {
        a[i] := other.data[i];
      }
      size := other.size;
      data := a;
    }

    /** Assignment: takes over the size and bits of `other` in a freshly
        allocated buffer; assigning a bitset to itself changes nothing. */
    method Assign(other: DynamicBitset)
      requires Valid() && other.Valid()
      modifies this
      ensures Valid()
      ensures size == old(other.size) && Bits() == old(other.Bits())
      ensures this == other ==> data == old(data)
      ensures this != other ==> fresh(data)
    {
      if this == other {
        return;
      }
      var a := new bool[other.size];
      for i := 0 to other.size
        invariant a[..i] == other.data[..i]
      {
        a[i] := other.data[i];
      }
      size, data := other.size, a;
    }

    /** Bounds-checked read: false outside [0, size), the stored bit inside. */
    function Test(index: int): (b: bool)
      requires Valid()
      reads this, data
      ensures !(0 <= index < size) ==> !b
      ensures 0 <= index < size ==> b == Bits()[index]
    {
      if 0 <= index < size then data[index] else false
    }

    /** Bounds-checked write: stores `value` at `index` when it is in range and
        leaves every other bit, and the size, as they were. */
    method Set(index: int, value: bool)
      requires Valid()
      modifies data
      ensures Valid() && size == old(size)
      ensures 0 <= index < size ==> Bits() == old(Bits())[index := value]
      ensures !(0 <= index < size) ==> Bits() == old(Bits())
    {
      if 0 <= index < size {
        data[index] := value;
      }
    }

    /** Clears every bit; the size is unchanged. */
    method Reset()
      requires Valid()
      modifies data
      ensures Valid() && size == old(size)
      ensures Bits() == AllClear(size)
    {
      for i := 0 to size
        invariant forall k :: 0 <= k < i ==> !data[k]
      {
        data[i] := false;
      }
    }

    /** Equality: same size and the same bit at every index. */
    method Equals(other: DynamicBitset) returns (eq: bool)
      requires Valid() && other.Valid()
      ensures eq <==> size == other.size && Bits() == other.Bits()
    {
      if size != other.size {
        return false;
      }
      for i := 0 to size
        invariant data[..i] == other.data[..i]
      {
        if data[i] != other.data[i] {
          assert Bits()[i] != other.Bits()[i];
          return false;
        }
      }
      assert data[..] == data[..size];
      return true;
    }
  }
}
