/**
 C's fixed-width unsigned arithmetic: the value of an expression once it is stored in 8, 16 or 32 bits. Beside
 it, division by a variable, page addresses, places in a ring, a law of concatenation, and optional values.
 */
module Words {
  datatype Option<T> = None | Some(value: T)

  /** A text or packet byte on which integer arithmetic is done. */
  type byte = x: int | 0 <= x < 0x100

  function U8(x: nat): (r: nat)
    ensures r < 0x100 && (x < 0x100 ==> r == x)
  {
    if x < 0x100 then x else x % 0x100
  }

  function U16(x: nat): (r: nat)
    ensures r < 0x1_0000 && (x < 0x1_0000 ==> r == x)
  {
    if x < 0x1_0000 then x else x % 0x1_0000
  }

  function U32(x: nat): (r: nat)
    ensures r < 0x1_0000_0000 && (x < 0x1_0000_0000 ==> r == x)
  {
    if x < 0x1_0000_0000 then x else x % 0x1_0000_0000
  }

  /** A word from its two bytes. */
  function Wide(hi: bv8, lo: bv8): (w: nat)
    ensures w < 0x1_0000
  {
    256 * hi as nat + lo as nat
  }

  /** The first byte is the high one. */
  lemma WideParts(hi: bv8, lo: bv8)
    ensures Wide(hi, lo) / 0x100 == hi as nat && Wide(hi, lo) % 0x100 == lo as nat
  {
  }

  /** What is stored is the remainder. */
  lemma Truncated(x: nat)
    ensures U8(x) == x % 0x100 && U16(x) == x % 0x1_0000 && U32(x) == x % 0x1_0000_0000
  {
  }

  // ----- division

  lemma {:induction false} Monotone(P: nat, x: nat, y: nat)
    ensures x < y ==> P * x + P <= P * y
    decreases y
  {
    if x < y {
      assert P * (y - 1) == P * y - P;
      Monotone(P, x, y - 1);
    }
  }

  lemma Quotient(P: nat, k: nat, o: nat)
    requires o < P
    ensures (P * k + o) / P == k && (P * k + o) % P == o
  {
    var i := P * k + o;
    assert i == P * (i / P) + i % P;
    Monotone(P, i / P, k);
    Monotone(P, k, i / P);
  }

  lemma DivMod(P: nat, x: nat, q: nat, r: nat)
    requires r < P && x == q * P + r
    ensures x / P == q && x % P == r
  {
    assert x == P * q + r;
    Quotient(P, q, r);
  }

  /** The byte address at which a page starts: page * P. */
  function Base(P: nat, page: nat): (r: nat) {
    if page == 0 then 0 else Base(P, page - 1) + P
  }

  lemma {:induction false} BaseProduct(P: nat, page: nat)
    ensures Base(P, page) == page * P
  {
    if page > 0 {
      BaseProduct(P, page - 1);
    }
  }

  // ----- places in a ring

  function Wrapped(size: nat, p: nat): (r: nat)
    requires p < 2 * size
    ensures r < size
  {
    if p < size then p else p - size
  }

  /** The place k steps behind `out`. */
  function Behind(size: nat, out: nat, k: nat): (p: nat)
    requires out < size && k <= size
    ensures p < size
  {
    Wrapped(size, out + k)
  }

  lemma Concat<T>(x: seq<T>, y: seq<T>, z: seq<T>)
    ensures x + y + z == x + (y + z)
  {
  }
}
