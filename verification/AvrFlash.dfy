/**
 The program memory of an AVR as its store instructions see it. A page is erased to ones, filled word by word
 through a temporary page buffer, and written by clearing bits; writing leaves the buffer blank.
 */
module AvrFlash {
  import opened Words

  const BLANK: bv8 := 0xFF

  /** The memory and the temporary buffer, which is one page long. */
  datatype Flash = Flash(bytes: seq<bv8>, temp: seq<bv8>)

  /** Pages are a whole number of words, and the word counter of the loaders has eight bits. */
  predicate PageSizeOk(P: nat) {
    0 < P <= 510 && P % 2 == 0
  }

  predicate Valid(f: Flash) {
    PageSizeOk(|f.temp|)
  }

  function AllBlank(n: nat): (r: seq<bv8>)
    ensures |r| == n
  {
    seq(n, _ => BLANK)
  }

  predicate TempBlank(f: Flash) {
    f.temp == AllBlank(|f.temp|)
  }

  function PageOf(P: nat, a: nat): (p: nat)
    requires P > 0
  {
    a / P
  }

  lemma Remainder(P: nat, a: nat)
    requires P > 0
    ensures a % P <= a
  {
    if a < P {
      assert a % P == a;
    }
  }

  /** The place of an address in its page. */
  function OffOf(P: nat, a: nat): (o: nat)
    requires P > 0
    ensures o < P && o <= a
  {
    Remainder(P, a);
    a % P
  }

  predicate Aligned(P: nat, a: nat) {
    P > 0 && OffOf(P, a) == 0
  }

  /** The page that starts at an aligned address. */
  lemma PageRange(P: nat, c: nat, i: nat)
    requires Aligned(P, c)
    ensures PageOf(P, i) == PageOf(P, c) <==> c <= i < c + P
    ensures c <= i < c + P ==> OffOf(P, i) == i - c
  {
    var k := c / P;
    assert c == P * k;
    assert i == P * (i / P) + i % P;
    if c <= i < c + P {
      Quotient(P, k, i - c);
    }
  }

  lemma NextAligned(P: nat, c: nat)
    requires Aligned(P, c)
    ensures Aligned(P, c + P)
  {
    var k := c / P;
    assert c == P * k;
    Quotient(P, k + 1, 0);
  }

  /** Two page starts less than a page apart are the same. */
  lemma SameStart(P: nat, c: nat, d: nat)
    requires Aligned(P, c) && Aligned(P, d) && c <= d < c + P
    ensures c == d
  {
    PageRange(P, c, d);
  }

  lemma StartOfPage(P: nat, a: nat)
    requires P > 0
    ensures Aligned(P, a - OffOf(P, a)) && PageOf(P, a - OffOf(P, a)) == PageOf(P, a)
  {
    assert a == P * (a / P) + a % P;
    Quotient(P, a / P, 0);
  }

  lemma EvenProduct(half: nat, k: nat)
    ensures 2 * half * k == 2 * (half * k)
  {
  }

  /** An address and its place in the page are both even or both odd. */
  lemma SameParity(P: nat, a: nat)
    requires PageSizeOk(P)
    ensures OffOf(P, a) % 2 == a % 2
  {
    var k, o, half := a / P, a % P, P / 2;
    assert a == P * k + o && P == 2 * half;
    EvenProduct(half, k);
    assert a == (half * k + o / 2) * 2 + o % 2;
    DivMod(2, a, half * k + o / 2, o % 2);
  }

  predicate SamePage(P: nat, a: nat, i: nat) {
    P > 0 && PageOf(P, a) == PageOf(P, i)
  }

  // ----- the store instructions

  /** The place of the word that holds an address: bit 0 of the address does not count. */
  function WordPlace(P: nat, a: nat): (o: nat)
    requires PageSizeOk(P)
    ensures o % 2 == 0 && o + 1 < P
  {
    var o := OffOf(P, a);
    o - o % 2
  }

  /** Puts a word into the buffer; a place that was filled before keeps its zeros. */
  function Fill(f: Flash, a: nat, lo: bv8, hi: bv8): (r: Flash)
    requires Valid(f)
    ensures Valid(r) && |r.temp| == |f.temp| && r.bytes == f.bytes
  {
    var o := WordPlace(|f.temp|, a);
    f.(temp := f.temp[o := f.temp[o] & lo][o + 1 := f.temp[o + 1] & hi])
  }

  function Erase(f: Flash, a: nat): (r: Flash)
    requires Valid(f)
    ensures |r.bytes| == |f.bytes| && r.temp == f.temp
  {
    f.(bytes := seq(|f.bytes|, i requires 0 <= i < |f.bytes| =>
                     if SamePage(|f.temp|, a, i) then BLANK else f.bytes[i]))
  }

  function Write(f: Flash, a: nat): (r: Flash)
    requires Valid(f)
    ensures |r.bytes| == |f.bytes| && |r.temp| == |f.temp| && TempBlank(r)
  {
    var P := |f.temp|;
    Flash(seq(|f.bytes|, i requires 0 <= i < |f.bytes| =>
                if SamePage(P, a, i) then f.bytes[i] & f.temp[OffOf(P, i)] else f.bytes[i]),
          AllBlank(P))
  }

  // ----- reading

  /** What is read from beyond the end of the flash is not modelled further. */
  function FlashByte(f: Flash, a: nat): (b: bv8) {
    if a < |f.bytes| then f.bytes[a] else BLANK
  }

  function FlashRead(f: Flash, a: nat, n: nat): (r: seq<bv8>)
    ensures |r| == n
  {
    seq(n, i requires 0 <= i < n => FlashByte(f, a + i))
  }

  /** The flash holds `data` at `a`, the least a loader has to bring about. */
  predicate InPlace(r: Flash, a: nat, data: seq<bv8>) {
    a + |data| <= |r.bytes| && r.bytes[a..a + |data|] == data
  }

  // ----- data that comes in

  /** The bytes of the whole words in n bytes. */
  function WordBytes(n: nat): (r: nat)
    ensures r % 2 == 0 && r <= n < r + 2
  {
    2 * (n / 2)
  }

  function Stream(payload: nat -> bv8, n: nat): (r: seq<bv8>)
    ensures |r| == n && forall i :: 0 <= i < n ==> r[i] == payload(i)
  {
    seq(n, i requires 0 <= i < n => payload(i))
  }

  /** What is left of a stream begins with its next word. */
  lemma RestOf(data: seq<bv8>, k: nat)
    requires k + 2 <= |data|
    ensures data[k..][0] == data[k] && data[k..][1] == data[k + 1] && data[k..][2..] == data[k + 2..]
  {
  }

  // ----- what they do to a whole page

  /** Byte i lies in the page that starts at c. */
  predicate In(P: nat, c: nat, i: nat) {
    c <= i < c + P
  }

  lemma EraseAt(f: Flash, c: nat, a: nat)
    requires Valid(f) && Aligned(|f.temp|, c) && In(|f.temp|, c, a)
    ensures forall i :: 0 <= i < |f.bytes| ==>
              Erase(f, a).bytes[i] == if In(|f.temp|, c, i) then BLANK else f.bytes[i]
  {
    forall i | 0 <= i < |f.bytes|
      ensures Erase(f, a).bytes[i] == if In(|f.temp|, c, i) then BLANK else f.bytes[i]
    {
      PageRange(|f.temp|, c, a);
      PageRange(|f.temp|, c, i);
    }
  }

  /** Written on erased ground, a page is the buffer. */
  lemma WriteAt(f: Flash, c: nat, a: nat)
    requires Valid(f) && Aligned(|f.temp|, c) && In(|f.temp|, c, a)
    requires forall i :: 0 <= i < |f.bytes| && In(|f.temp|, c, i) ==> f.bytes[i] == BLANK
    ensures forall i :: 0 <= i < |f.bytes| ==>
              Write(f, a).bytes[i] == if In(|f.temp|, c, i) then f.temp[i - c] else f.bytes[i]
  {
    forall i | 0 <= i < |f.bytes|
      ensures Write(f, a).bytes[i] == if In(|f.temp|, c, i) then f.temp[i - c] else f.bytes[i]
    {
      PageRange(|f.temp|, c, a);
      PageRange(|f.temp|, c, i);
    }
  }

  /** Erased and written with a blank buffer, a page is blank. */
  lemma Blanked(f: Flash, c: nat, a: nat)
    requires Valid(f) && TempBlank(f) && Aligned(|f.temp|, c) && In(|f.temp|, c, a)
    ensures forall i :: 0 <= i < |f.bytes| ==>
              Write(Erase(f, a), a).bytes[i] == if In(|f.temp|, c, i) then BLANK else f.bytes[i]
  {
    EraseAt(f, c, a);
    WriteAt(Erase(f, a), c, a);
  }

  lemma WriteElsewhere(f: Flash, a: nat, i: nat)
    requires Valid(f) && i < |f.bytes| && !SamePage(|f.temp|, a, i)
    ensures Write(f, a).bytes[i] == f.bytes[i]
  {
  }

  lemma BlankAnd(b: bv8)
    ensures b & BLANK == b && BLANK & b == b
  {
  }

  lemma FillAt(f: Flash, c: nat, o: nat, lo: bv8, hi: bv8)
    requires Valid(f) && Aligned(|f.temp|, c) && o + 1 < |f.temp| && o % 2 == 0
    requires f.temp[o] == BLANK && f.temp[o + 1] == BLANK
    ensures Fill(f, c + o, lo, hi).temp == f.temp[o := lo][o + 1 := hi]
  {
    PageRange(|f.temp|, c, c + o);
    assert WordPlace(|f.temp|, c + o) == o;
    BlankAnd(lo);
    BlankAnd(hi);
  }
}
