/** The ring buffer of the USB to serial adapter: when it is full, a new byte takes the place of the oldest. */
module RingBuff {
  import opened Words

  /** What a full ring does with a new byte. */
  function DropOldest(q: seq<bv8>, x: bv8, capacity: nat): (r: seq<bv8>)
    requires |q| <= capacity && capacity > 0
    ensures |r| <= capacity
  {
    if |q| == capacity then q[1..] + [x] else q + [x]
  }

  class RingBuff {
    const buffer: array<bv8>
    var inPtr: nat
    var outPtr: nat
    var elements: nat
    /** The bytes in the ring, the oldest first. */
    ghost var contents: seq<bv8>

    ghost predicate Valid()
      reads this, buffer
    {
      && inPtr < buffer.Length && outPtr < buffer.Length && elements <= buffer.Length && |contents| == elements
      && inPtr == Behind(buffer.Length, outPtr, elements)
      && forall k :: 0 <= k < elements ==> buffer[Behind(buffer.Length, outPtr, k)] == contents[k]
    }

    constructor (length: nat)
      requires length > 0
      ensures fresh(buffer) && buffer.Length == length
    {
      buffer := new bv8[length](_ => 0);
      inPtr, outPtr, elements, contents := 0, 0, 0, [];
    }

    method Initialize()
      requires buffer.Length > 0
      modifies this
      ensures Valid() && contents == []
    {
      inPtr, outPtr, elements, contents := 0, 0, 0, [];
    }

    /** The next place, from the last one to the first. */
    function Next(p: nat): (r: nat)
      requires p < buffer.Length
      ensures r == Behind(buffer.Length, p, 1)
    {
      if p + 1 == buffer.Length then 0 else p + 1
    }

    /** Gives up the oldest byte. */
    method Skip()
      requires Valid() && elements > 0
      modifies this
      ensures Valid() && contents == old(contents[1..])
    {
      ghost var out, n := outPtr, buffer.Length;
      outPtr := Next(outPtr);
      elements := elements - 1;
      contents := contents[1..];
      forall k | 0 <= k < elements ensures buffer[Behind(n, outPtr, k)] == contents[k] {
        assert Behind(n, outPtr, k) == Behind(n, out, k + 1);
      }
    }

    method Append(x: bv8)
      requires Valid() && elements < buffer.Length
      modifies this, buffer
      ensures Valid() && contents == old(contents) + [x]
    {
      ghost var n := buffer.Length;
      forall k | 0 <= k < elements ensures Behind(n, outPtr, k) != inPtr {
      }
      buffer[inPtr] := x;
      inPtr := Next(inPtr);
      elements := elements + 1;
      contents := contents + [x];
    }

    method StoreElement(x: bv8)
      requires Valid()
      modifies this, buffer
      ensures Valid() && contents == DropOldest(old(contents), x, buffer.Length)
    {
      if elements == buffer.Length {
        Skip();
      }
      Append(x);
    }

    /** Does not check for an empty ring. */
    method GetElement() returns (x: bv8)
      requires Valid() && contents != []
      modifies this
      ensures Valid() && old(contents) == [x] + contents
    {
      assert Behind(buffer.Length, outPtr, 0) == outPtr;
      x := buffer[outPtr];
      Skip();
    }
  }
}
