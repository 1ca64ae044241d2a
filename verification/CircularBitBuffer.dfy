/** The bit queue of the magnetic stripe reader: bits packed in bytes, found by a byte index and a mask. */
module CircularBitBuffer {
  import opened Words

  // ----- bits of bytes

  function MaskOf(j: nat): (m: bv8)
    requires j < 8
  {
    if j == 0 then 0x01 else if j == 1 then 0x02 else if j == 2 then 0x04 else if j == 3 then 0x08
    else if j == 4 then 0x10 else if j == 5 then 0x20 else if j == 6 then 0x40 else 0x80
  }

  predicate Bit(b: bv8, j: nat)
    requires j < 8
  {
    b & MaskOf(j) != 0
  }

  lemma MaskNext(j: nat)
    requires j < 8
    ensures MaskOf(j) == 0x80 <==> j == 7
    ensures j < 7 ==> MaskOf(j) << 1 == MaskOf(j + 1)
  {
  }

  lemma OtherMask(b: bv8, m: bv8, n: bv8)
    requires m & n == 0
    ensures (b | m) & n == b & n && (b & !m) & n == b & n
  {
  }

  lemma MasksDiffer(j: nat, k: nat)
    requires j < 8 && k < 8 && j != k
    ensures MaskOf(j) & MaskOf(k) == 0
  {
  }

  lemma OwnMask(b: bv8, m: bv8)
    ensures (b | m) & m == m && (b & !m) & m == 0
  {
  }

  lemma SetBit(b: bv8, j: nat, k: nat)
    requires j < 8 && k < 8
    ensures Bit(b | MaskOf(j), k) == (j == k || Bit(b, k))
    ensures Bit(b & !MaskOf(j), k) == (j != k && Bit(b, k))
  {
    if j != k {
      MasksDiffer(j, k);
      OtherMask(b, MaskOf(j), MaskOf(k));
    } else {
      OwnMask(b, MaskOf(j));
    }
  }

  /** All bits, the lowest of each byte first. */
  function Unpacked(data: seq<bv8>): (r: seq<bool>)
    ensures |r| == 8 * |data|
  {
    seq(8 * |data|, p requires 0 <= p < 8 * |data| => Bit(data[p / 8], p % 8))
  }

  /** Byte and bit of a place. */
  lemma PlaceOf(b: nat, j: nat)
    requires j < 8
    ensures (8 * b + j) / 8 == b && (8 * b + j) % 8 == j
  {
  }

  lemma UnpackedAt(data: seq<bv8>, p: nat)
    requires p < 8 * |data|
    ensures Unpacked(data)[p] == Bit(data[p / 8], p % 8)
  {
  }

  lemma UnpackedOther(data: seq<bv8>, b: nat, j: nat, x: bv8, p: nat)
    requires b < |data| && j < 8 && p < 8 * |data|
    requires forall k :: 0 <= k < 8 && k != j ==> Bit(x, k) == Bit(data[b], k)
    ensures Unpacked(data[b := x])[p] == if p == 8 * b + j then Bit(x, j) else Unpacked(data)[p]
  {
    UnpackedAt(data, p);
    UnpackedAt(data[b := x], p);
    PlaceOf(b, j);
  }

  lemma UnpackedSet(data: seq<bv8>, b: nat, j: nat, x: bv8)
    requires b < |data| && j < 8
    requires forall k :: 0 <= k < 8 && k != j ==> Bit(x, k) == Bit(data[b], k)
    ensures Unpacked(data[b := x]) == Unpacked(data)[8 * b + j := Bit(x, j)]
  {
    var r := Unpacked(data)[8 * b + j := Bit(x, j)];
    forall p: nat | p < 8 * |data| ensures Unpacked(data[b := x])[p] == r[p] {
      UnpackedOther(data, b, j, x, p);
    }
  }

  /** A byte with one bit set or cleared. */
  function WithBit(b: bv8, j: nat, x: bool): (y: bv8)
    requires j < 8
  {
    if x then b | MaskOf(j) else b & !MaskOf(j)
  }

  lemma WithBitBits(b: bv8, j: nat, x: bool)
    requires j < 8
    ensures forall k :: 0 <= k < 8 ==> Bit(WithBit(b, j, x), k) == if k == j then x else Bit(b, k)
  {
    forall k | 0 <= k < 8 ensures Bit(WithBit(b, j, x), k) == if k == j then x else Bit(b, k) {
      SetBit(b, j, k);
    }
  }

  /** Setting or clearing a bit of one of the bytes. */
  lemma SetOne(data: seq<bv8>, b: nat, j: nat, x: bool)
    requires b < |data| && j < 8
    ensures Unpacked(data[b := WithBit(data[b], j, x)]) == Unpacked(data)[8 * b + j := x]
    ensures Unpacked(data)[8 * b + j] == Bit(data[b], j)
  {
    WithBitBits(data[b], j, x);
    UnpackedSet(data, b, j, WithBit(data[b], j, x));
    PlaceOf(b, j);
    UnpackedAt(data, 8 * b + j);
  }

  // ----- the ring of bits

  /** Steps around the ring: whole turns left out. */
  function Turned(size: nat, k: nat): (r: nat)
    requires size > 0
    ensures r < size && (k < size ==> r == k)
  {
    if k < size then k else Turned(size, k - size)
  }

  lemma {:induction false} TurnedNext(size: nat, k: nat)
    requires size > 0
    ensures Turned(size, k + 1) == if Turned(size, k) + 1 == size then 0 else Turned(size, k) + 1
  {
    if k >= size {
      TurnedNext(size, k - size);
    }
  }

  /** The n bits from `out` on, around the end; a place taken once is blank when it comes round again. */
  function Queue(bits: seq<bool>, out: nat, n: nat): (q: seq<bool>)
    requires out < |bits|
    ensures |q| == n
  {
    seq(n, k requires 0 <= k < n => k < |bits| && bits[Behind(|bits|, out, k)])
  }

  /** Every place that holds no bit of the queue is zero. */
  predicate RestZero(bits: seq<bool>, out: nat, n: nat)
    requires out < |bits|
  {
    forall k :: n <= k < |bits| ==> !bits[Behind(|bits|, out, k)]
  }

  /**
   A queue with a bit more. As long as there is room it is appended; a queue that fills all places still gets
   longer, but the bit is or-ed into the place it falls on, and what comes last is a zero.
   */
  function Stored(q: seq<bool>, x: bool, size: nat): (r: seq<bool>)
    requires size > 0
    ensures |r| == |q| + 1
  {
    if |q| < size then q + [x] else q[Turned(size, |q|) := q[Turned(size, |q|)] || x] + [false]
  }

  /** A queue of n bits from `out` on, the next one to be stored at `at`. */
  predicate Ring(bits: seq<bool>, out: nat, n: nat, at: nat) {
    && out < |bits| && at == Behind(|bits|, out, Turned(|bits|, n))
    && RestZero(bits, out, n)
  }

  /** Setting the bit at the place behind the last one. */
  lemma StoreInRing(bits: seq<bool>, out: nat, n: nat, x: bool, at: nat)
    requires Ring(bits, out, n, at)
    ensures var bits' := bits[at := bits[at] || x];
            && Queue(bits', out, n + 1) == Stored(Queue(bits, out, n), x, |bits|)
            && Ring(bits', out, n + 1, Behind(|bits|, at, 1))
  {
    var bits' := bits[at := bits[at] || x];
    var f := Turned(|bits|, n);
    TurnedNext(|bits|, n);
    forall k | 0 <= k < |bits| && k != f ensures Behind(|bits|, out, k) != at {
    }
    forall k | 0 <= k < n + 1 ensures Queue(bits', out, n + 1)[k] == Stored(Queue(bits, out, n), x, |bits|)[k] {
      if k < |bits| {
        assert bits'[Behind(|bits|, out, k)] == (bits[Behind(|bits|, out, k)] || (k == f && x));
      }
    }
  }

  lemma StepBack(size: nat, out: nat, n: nat)
    requires out < size && n > 0
    ensures Behind(size, Behind(size, out, 1), Turned(size, n - 1)) == Behind(size, out, Turned(size, n))
  {
    TurnedNext(size, n - 1);
  }

  /** The oldest bit taken and its place cleared. */
  lemma TakeFromRing(bits: seq<bool>, out: nat, n: nat, at: nat, out': nat, bits': seq<bool>)
    requires Ring(bits, out, n, at) && 0 < n
    requires out' == Behind(|bits|, out, 1) && bits' == bits[out := false]
    ensures Queue(bits, out, n) == [bits[out]] + Queue(bits', out', n - 1)
    ensures Ring(bits', out', n - 1, at)
  {
    assert Behind(|bits|, out, 0) == out;
    StepBack(|bits|, out, n);
    forall k | 0 <= k < |bits|
      ensures bits'[Behind(|bits|, out', k)] == (k + 1 < |bits| && bits[Behind(|bits|, out, k + 1)])
    {
      if k + 1 < |bits| {
        assert Behind(|bits|, out', k) == Behind(|bits|, out, k + 1) != out;
      } else {
        assert Behind(|bits|, out', k) == out;
      }
    }
  }

  lemma NothingSet(data: seq<bv8>)
    requires data != [] && forall i :: 0 <= i < |data| ==> data[i] == 0
    ensures RestZero(Unpacked(data), 0, 0)
  {
    forall p: nat | p < 8 * |data| ensures !Unpacked(data)[p] {
      UnpackedAt(data, p);
    }
  }

  // ----- the buffer

  lemma CountDown(n: nat)
    requires n > 0
    ensures U16(n - 1) == if U16(n) == 0 then 0xFFFF else U16(n) - 1
  {
  }

  lemma CountUp(n: nat)
    ensures U16(n + 1) == U16(U16(n) + 1)
  {
  }

  /** A byte index and a mask that stand for place `pos`. */
  predicate PointsAt(byte: nat, mask: bv8, bit: nat, pos: nat) {
    bit < 8 && mask == MaskOf(bit) && pos == 8 * byte + bit
  }

  class BitBuffer {
    const data: array<bv8>
    var elements: nat
    var inByte: nat
    var inMask: bv8
    var outByte: nat
    var outMask: bv8
    /** The data bit by bit, and the places the two masks stand for: which bit of its byte, and altogether. */
    ghost var bits: seq<bool>
    ghost var inBit: nat
    ghost var outBit: nat
    ghost var inPos: nat
    ghost var outPos: nat
    /** The number of bits, of which `elements` has the last sixteen bits. */
    ghost var stored: nat

    /** The ghost bits follow the data. */
    ghost predicate Bits()
      reads this, data
    {
      |bits| == 8 * data.Length && bits == Unpacked(data[..])
    }

    ghost predicate Valid()
      reads this, data
    {
      && Bits()
      && PointsAt(inByte, inMask, inBit, inPos) && PointsAt(outByte, outMask, outBit, outPos)
      && elements == U16(stored) && Ring(bits, outPos, stored, inPos)
    }

    /** The bits in the buffer, the oldest first. */
    ghost function Contents(): (q: seq<bool>)
      reads this, data
      requires Valid()
      ensures elements == U16(|q|)
    {
      Queue(bits, outPos, stored)
    }

    constructor (size: nat)
      requires size > 0
      ensures fresh(data) && data.Length == size && forall i :: 0 <= i < size ==> data[i] == 0
    {
      data := new bv8[size](_ => 0);
      elements, inByte, inMask, outByte, outMask := 0, 0, 0, 0, 0;
      bits, inBit, outBit, inPos, outPos, stored := [], 0, 0, 0, 0, 0;
    }

    /** Does not clear the data, which is zero from the start. */
    method Init()
      requires data.Length > 0 && forall i :: 0 <= i < data.Length ==> data[i] == 0
      modifies this
      ensures Valid() && Contents() == []
    {
      elements := 0;
      inByte, inMask := 0, 0x01;
      outByte, outMask := 0, 0x01;
      bits, inBit, outBit, inPos, outPos, stored := Unpacked(data[..]), 0, 0, 0, 0, 0;
      NothingSet(data[..]);
    }

    /** Moves a byte index and a mask to the next bit, from the last one to the first. */
    method Advance(byte: nat, mask: bv8, ghost bit: nat, ghost pos: nat)
      returns (byte': nat, mask': bv8, ghost bit': nat, ghost pos': nat)
      requires PointsAt(byte, mask, bit, pos) && pos < 8 * data.Length
      ensures PointsAt(byte', mask', bit', pos') && pos' == Behind(8 * data.Length, pos, 1)
    {
      MaskNext(bit);
      if mask == 0x80 {
        byte' := if byte != data.Length - 1 then byte + 1 else 0;
        mask', bit' := 0x01, 0;
      } else {
        byte', mask', bit' := byte, mask << 1, bit + 1;
      }
      pos' := 8 * byte' + bit';
    }

    method SetBitAt(byte: nat, mask: bv8, ghost bit: nat, ghost pos: nat, x: bool)
      requires Bits() && PointsAt(byte, mask, bit, pos) && pos < |bits|
      modifies data, this`bits
      ensures Bits() && bits == old(bits)[pos := old(bits)[pos] || x]
    {
      if x {
        SetOne(data[..], byte, bit, true);
        ghost var before := data[..];
        data[byte] := data[byte] | mask;
        assert data[..] == before[byte := WithBit(before[byte], bit, true)];
        bits := Unpacked(data[..]);
      }
    }

    method ClearBitAt(byte: nat, mask: bv8, ghost bit: nat, ghost pos: nat) returns (x: bool)
      requires Bits() && PointsAt(byte, mask, bit, pos) && pos < |bits|
      modifies data, this`bits
      ensures Bits() && x == old(bits)[pos] && bits == old(bits)[pos := false]
    {
      SetOne(data[..], byte, bit, false);
      ghost var before := data[..];
      x := data[byte] & mask != 0;
      data[byte] := data[byte] & !mask;
      assert data[..] == before[byte := WithBit(before[byte], bit, false)];
      bits := Unpacked(data[..]);
    }

    method StoreNextBit(x: bool)
      requires Valid()
      modifies this, data
      ensures Valid() && Contents() == Stored(old(Contents()), x, 8 * data.Length)
    {
      CountUp(stored);
      StoreInRing(bits, outPos, stored, x, inPos);
      SetBitAt(inByte, inMask, inBit, inPos, x);
      elements, stored := U16(elements + 1), stored + 1;
      inByte, inMask, inBit, inPos := Advance(inByte, inMask, inBit, inPos);
    }

    method GetNextBit() returns (x: bool)
      requires Valid() && Contents() != []
      modifies this, data
      ensures Valid() && old(Contents()) == [x] + Contents()
    {
      ghost var before, out := bits, outPos;
      x := ClearBitAt(outByte, outMask, outBit, outPos);
      TakeFromRing(before, out, stored, inPos, Behind(|bits|, out, 1), bits);
      CountDown(stored);
      elements, stored := if elements == 0 then 0xFFFF else elements - 1, stored - 1;
      outByte, outMask, outBit, outPos := Advance(outByte, outMask, outBit, outPos);
    }
  }
}
