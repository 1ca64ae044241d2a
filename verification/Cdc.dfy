/**
 The CDC bootloader: block reads and writes of the AVR910 protocol, and the chip erase loop, which steps by one
 byte more than a page.
 */
module Cdc {
  import opened Words
  import opened AvrFlash
  import opened AvrEeprom

  // ----- a block of the flash

  /** The fills of a block write, word by word; a byte without a partner is dropped. */
  function FillBlock(f: Flash, a: nat, data: seq<bv8>): (r: Flash)
    requires Valid(f)
    ensures Valid(r) && |r.temp| == |f.temp| && r.bytes == f.bytes
    decreases |data|
  {
    if |data| < 2 then f else FillBlock(Fill(f, a, data[0], data[1]), a + 2, data[2..])
  }

  function WriteBlock(f: Flash, a: nat, data: seq<bv8>): (r: Flash)
    requires Valid(f)
  {
    Write(FillBlock(Erase(f, a), a, data), a)
  }

  /** The block is in place, the rest of its page is blank, and every other byte is as it was. */
  predicate BlockWritten(r: Flash, f: Flash, c: nat, o: nat, data: seq<bv8>) {
    && |r.bytes| == |f.bytes| && |r.temp| == |f.temp| && TempBlank(r)
    && forall i :: 0 <= i < |f.bytes| ==>
         r.bytes[i] == if c + o <= i < c + o + |data| then data[i - (c + o)]
                       else if In(|f.temp|, c, i) then BLANK
                       else f.bytes[i]
  }

  predicate BlankFrom(temp: seq<bv8>, o: nat) {
    forall j :: o <= j < |temp| ==> temp[j] == BLANK
  }

  lemma FilledWord(f: Flash, c: nat, o: nat, data: seq<bv8>)
    requires Valid(f) && Aligned(|f.temp|, c) && o % 2 == 0 && |data| % 2 == 0 && o + |data| <= |f.temp| && data != []
    requires BlankFrom(f.temp, o)
    ensures var filled := Fill(f, c + o, data[0], data[1]);
            && filled.temp == f.temp[o := data[0]][o + 1 := data[1]] && BlankFrom(filled.temp, o + 2)
            && (o + 2) % 2 == 0 && |data[2..]| % 2 == 0
  {
    FillAt(f, c, o, data[0], data[1]);
  }

  lemma Laid(temp: seq<bv8>, o: nat, data: seq<bv8>)
    requires o + |data| <= |temp| && |data| >= 2
    ensures var filled := temp[o := data[0]][o + 1 := data[1]];
            filled[..o + 2] + data[2..] + filled[o + 2 + |data[2..]|..] == temp[..o] + data + temp[o + |data|..]
  {
    var filled := temp[o := data[0]][o + 1 := data[1]];
    assert filled[..o + 2] == temp[..o] + data[..2];
    assert data == data[..2] + data[2..];
    assert filled[o + |data|..] == temp[o + |data|..];
  }

  /** Fills within one page lay the data into the buffer. */
  lemma {:induction false} FillBlockLays(f: Flash, c: nat, o: nat, data: seq<bv8>)
    requires Valid(f) && Aligned(|f.temp|, c) && o % 2 == 0 && |data| % 2 == 0 && o + |data| <= |f.temp|
    requires BlankFrom(f.temp, o)
    ensures FillBlock(f, c + o, data).temp == f.temp[..o] + data + f.temp[o + |data|..]
    decreases |data|
  {
    if data != [] {
      var filled, rest := Fill(f, c + o, data[0], data[1]), data[2..];
      FilledWord(f, c, o, data);
      FillBlockLays(filled, c, o + 2, rest);
      assert c + (o + 2) == c + o + 2;
      Laid(f.temp, o, data);
    } else {
      assert f.temp[..o] + [] + f.temp[o..] == f.temp;
    }
  }

  lemma LaidAt(temp: seq<bv8>, o: nat, data: seq<bv8>, j: nat)
    requires o + |data| <= |temp| && BlankFrom(temp, 0) && j < |temp|
    ensures (temp[..o] + data + temp[o + |data|..])[j] == if o <= j < o + |data| then data[j - o] else BLANK
  {
  }

  /** A byte without a partner is not filled. */
  lemma {:induction false} WholeWords(f: Flash, a: nat, data: seq<bv8>)
    requires Valid(f)
    ensures FillBlock(f, a, data) == FillBlock(f, a, data[..WordBytes(|data|)])
    decreases |data|
  {
    var words := data[..WordBytes(|data|)];
    if |data| >= 2 {
      assert words[0] == data[0] && words[1] == data[1] && words[2..] == data[2..][..WordBytes(|data[2..]|)];
      WholeWords(Fill(f, a, data[0], data[1]), a + 2, data[2..]);
    }
  }

  /** The buffer before the page is written: the data and ones. */
  lemma BufferFilled(f: Flash, c: nat, o: nat, data: seq<bv8>, j: nat)
    requires Valid(f) && TempBlank(f) && Aligned(|f.temp|, c) && o < |f.temp| && j < |f.temp|
    requires o % 2 == 0 && |data| % 2 == 0 && o + |data| <= |f.temp|
    ensures FillBlock(Erase(f, c + o), c + o, data).temp[j] == if o <= j < o + |data| then data[j - o] else BLANK
  {
    FillBlockLays(Erase(f, c + o), c, o, data);
    LaidAt(f.temp, o, data, j);
  }

  /** A byte when the page of a block has been written. */
  lemma WrittenByte(f: Flash, c: nat, o: nat, words: seq<bv8>, i: nat)
    requires Valid(f) && TempBlank(f) && Aligned(|f.temp|, c) && o < |f.temp| && i < |f.bytes|
    requires o % 2 == 0 && |words| % 2 == 0 && o + |words| <= |f.temp|
    ensures Write(FillBlock(Erase(f, c + o), c + o, words), c + o).bytes[i] ==
              if c + o <= i < c + o + |words| then words[i - (c + o)]
              else if In(|f.temp|, c, i) then BLANK else f.bytes[i]
  {
    var erased := Erase(f, c + o);
    var filled := FillBlock(erased, c + o, words);
    EraseAt(f, c, c + o);
    assert filled.bytes == erased.bytes && |filled.temp| == |f.temp|;
    WriteAt(filled, c, c + o);
    if In(|f.temp|, c, i) {
      BufferFilled(f, c, o, words, i - c);
    }
  }

  /** A block write lays down the whole words of its data. */
  lemma WriteBlockRight(f: Flash, c: nat, o: nat, data: seq<bv8>)
    requires Valid(f) && TempBlank(f) && Aligned(|f.temp|, c) && o < |f.temp|
    requires o % 2 == 0 && o + WordBytes(|data|) <= |f.temp|
    ensures BlockWritten(WriteBlock(f, c + o, data), f, c, o, data[..WordBytes(|data|)])
  {
    var erased, words := Erase(f, c + o), data[..WordBytes(|data|)];
    WholeWords(erased, c + o, data);
    var r := Write(FillBlock(erased, c + o, words), c + o);
    forall i | 0 <= i < |f.bytes|
      ensures r.bytes[i] == if c + o <= i < c + o + |words| then words[i - (c + o)]
                            else if In(|f.temp|, c, i) then BLANK else f.bytes[i]
    {
      WrittenByte(f, c, o, words, i);
    }
  }

  /** Only the page of the block is written. */
  lemma OtherPages(f: Flash, a: nat, data: seq<bv8>, x: nat)
    requires Valid(f) && x < |f.bytes| && !SamePage(|f.temp|, a, x)
    ensures |WriteBlock(f, a, data).bytes| == |f.bytes| && WriteBlock(f, a, data).bytes[x] == f.bytes[x]
  {
  }

  function Opposite(b: bv8, n: nat): (data: seq<bv8>)
    ensures |data| == n && forall i :: 0 <= i < n ==> data[i] != b
  {
    seq(n, _ => !b)
  }

  /** Contents that a block write at `a` loses: its last byte if it has no partner, or its part of the next page. */
  lemma WriteBlockLoses(f: Flash, a: nat, n: nat) returns (data: seq<bv8>)
    requires Valid(f) && TempBlank(f) && a % 2 == 0 && a + n <= |f.bytes|
    requires !(n % 2 == 0 && OffOf(|f.temp|, a) + n <= |f.temp|)
    ensures |data| == n && !InPlace(WriteBlock(f, a, data), a, data)
  {
    var P, o := |f.temp|, OffOf(|f.temp|, a);
    var c := a - o;
    StartOfPage(P, a);
    SameParity(P, a);
    if o + n <= P {
      data := Opposite(BLANK, n);
      WriteBlockRight(f, c, o, data);
      assert WriteBlock(f, a, data).bytes[a..a + n][n - 1] == BLANK != data[n - 1];
    } else {
      data := Opposite(f.bytes[c + P], n);
      PageRange(P, c, c + P);
      OtherPages(f, a, data, c + P);
      assert WriteBlock(f, a, data).bytes[a..a + n][c + P - a] == f.bytes[c + P] != data[c + P - a];
    }
  }

  /**
   A block write is right for every content if and only if it has an even number of bytes and stays within one
   page.
   */
  lemma WriteBlockExact(f: Flash, a: nat, n: nat)
    requires Valid(f) && TempBlank(f) && a % 2 == 0 && a + n <= |f.bytes|
    ensures (forall data :: |data| == n ==> InPlace(WriteBlock(f, a, data), a, data))
            <==> n % 2 == 0 && OffOf(|f.temp|, a) + n <= |f.temp|
  {
    if n % 2 == 0 && OffOf(|f.temp|, a) + n <= |f.temp| {
      forall data | |data| == n ensures InPlace(WriteBlock(f, a, data), a, data) {
        StartOfPage(|f.temp|, a);
        SameParity(|f.temp|, a);
        WriteBlockRight(f, a - OffOf(|f.temp|, a), OffOf(|f.temp|, a), data);
        assert data[..WordBytes(n)] == data;
      }
    } else {
      var data := WriteBlockLoses(f, a, n);
    }
  }

  lemma ReadWritten(r: Flash, f: Flash, c: nat, o: nat, data: seq<bv8>)
    requires BlockWritten(r, f, c, o, data) && c + o + |data| <= |f.bytes|
    ensures FlashRead(r, c + o, |data|) == data
  {
    forall i | 0 <= i < |data| ensures FlashRead(r, c + o, |data|)[i] == data[i] {
      assert FlashRead(r, c + o, |data|)[i] == FlashByte(r, c + o + i);
      assert r.bytes[c + o + i] == data[c + o + i - (c + o)];
    }
  }

  /** A block that was written is read back. */
  lemma BlockRoundTrip(f: Flash, a: nat, data: seq<bv8>)
    requires Valid(f) && TempBlank(f) && a % 2 == 0 && |data| % 2 == 0
    requires OffOf(|f.temp|, a) + |data| <= |f.temp| && a + |data| <= |f.bytes|
    ensures FlashRead(WriteBlock(f, a, data), a, |data|) == data
  {
    var o := OffOf(|f.temp|, a);
    var c: nat := a - o;
    StartOfPage(|f.temp|, a);
    SameParity(|f.temp|, a);
    WriteBlockRight(f, c, o, data);
    assert data[..WordBytes(|data|)] == data;
    ReadWritten(WriteBlock(f, c + o, data), f, c, o, data);
    assert c + o == a;
  }

  // ----- the chip erase

  /** The erase loop: the address grows by the page size in the body and by one in the loop head. */
  function EraseStride(f: Flash, a: nat, boot: nat): (r: Flash)
    requires Valid(f)
    ensures |r.bytes| == |f.bytes| && |r.temp| == |f.temp|
    decreases boot - a
  {
    if a >= boot then f else EraseStride(Write(Erase(f, a), a), a + |f.temp| + 1, boot)
  }

  /** The pages the loop steps over: one in every P + 1. */
  predicate Skipped(P: nat, page: nat) {
    page % (P + 1) == P
  }

  lemma StartAligned(P: nat, page: nat)
    requires P > 0
    ensures Aligned(P, Base(P, page)) && PageOf(P, Base(P, page)) == page
    ensures Base(P, page + 1) == Base(P, page) + P
  {
    BaseProduct(P, page);
    Quotient(P, page, 0);
    assert P * page + 0 == page * P;
  }

  lemma InStart(P: nat, page: nat, i: nat)
    requires P > 0
    ensures In(P, Base(P, page), i) <==> PageOf(P, i) == page
  {
    StartAligned(P, page);
    PageRange(P, Base(P, page), i);
  }

  lemma StartBefore(P: nat, page: nat, pages: nat)
    requires P > 0
    ensures page < pages ==> Base(P, page) + P <= Base(P, pages)
    ensures page >= pages ==> Base(P, page) >= Base(P, pages)
  {
    BaseProduct(P, page);
    BaseProduct(P, pages);
    Monotone(P, page, pages);
    Monotone(P, pages, page);
    assert P * page == page * P && P * pages == pages * P;
  }

  /** The r-th page of the k-th P + 1 pages. */
  function Page(P: nat, k: nat, r: nat): (page: nat) {
    Base(P + 1, k) + r
  }

  lemma {:induction false} AtLeast(P: nat, k: nat)
    ensures k <= Base(P + 1, k)
  {
    if k > 0 {
      AtLeast(P, k - 1);
    }
  }

  /** Where the loop goes from there. */
  lemma NextSkipped(P: nat, k: nat, r: nat)
    requires P > 0 && r < P
    ensures !Skipped(P, Page(P, k, r)) && Page(P, k, r + 1) == Page(P, k, r) + 1 && k <= Page(P, k, r)
    ensures r + 1 == P ==> Skipped(P, Page(P, k, r + 1)) && Page(P, k + 1, 0) == Page(P, k, r) + 2
  {
    BaseProduct(P + 1, k);
    DivMod(P + 1, Page(P, k, r), k, r);
    DivMod(P + 1, Page(P, k, r + 1), k, r + 1);
    AtLeast(P, k);
  }

  lemma FirstPage(P: nat)
    ensures Page(P, 0, 0) == 0 && Base(P, 0) == 0
  {
  }

  predicate StrideErased(r: Flash, f: Flash, from: nat, pages: nat) {
    && |r.bytes| == |f.bytes| && Valid(f)
    && forall i :: 0 <= i < |f.bytes| ==>
         r.bytes[i] == if from <= PageOf(|f.temp|, i) < pages && !Skipped(|f.temp|, PageOf(|f.temp|, i)) then BLANK
                       else f.bytes[i]
  }

  lemma ErasePage(f: Flash, page: nat, r: nat)
    requires Valid(f) && TempBlank(f) && r < |f.temp|
    ensures var e := Write(Erase(f, Base(|f.temp|, page) + r), Base(|f.temp|, page) + r);
            && |e.bytes| == |f.bytes| && |e.temp| == |f.temp| && TempBlank(e)
            && forall i :: 0 <= i < |f.bytes| ==>
                 e.bytes[i] == if PageOf(|f.temp|, i) == page then BLANK else f.bytes[i]
  {
    var P := |f.temp|;
    var c := Base(P, page);
    StartAligned(P, page);
    Blanked(f, c, c + r);
    var e := Write(Erase(f, c + r), c + r);
    forall i | 0 <= i < |f.bytes| ensures e.bytes[i] == if PageOf(P, i) == page then BLANK else f.bytes[i] {
      InStart(P, page, i);
    }
  }

  /** The addresses the loop goes to. */
  lemma NextAddress(P: nat, k: nat, r: nat)
    requires P > 0 && r < P
    ensures Base(P, Page(P, k, r)) + r + P + 1 ==
              if r + 1 < P then Base(P, Page(P, k, r + 1)) + (r + 1) else Base(P, Page(P, k + 1, 0))
  {
    NextSkipped(P, k, r);
    StartAligned(P, Page(P, k, r));
    StartAligned(P, Page(P, k, r) + 1);
  }

  lemma StrideJoin(r: Flash, e: Flash, f: Flash, page: nat, next: nat, pages: nat)
    requires Valid(f) && page < pages && !Skipped(|f.temp|, page)
    requires next == page + 1 || (next == page + 2 && Skipped(|f.temp|, page + 1))
    requires |e.bytes| == |f.bytes| && |e.temp| == |f.temp|
    requires forall i :: 0 <= i < |f.bytes| ==> e.bytes[i] == if PageOf(|f.temp|, i) == page then BLANK else f.bytes[i]
    requires StrideErased(r, e, next, pages)
    ensures StrideErased(r, f, page, pages)
  {
  }

  /** The loop erases exactly the pages whose number does not leave the remainder P when divided by P + 1. */
  lemma {:induction false} StrideErases(f: Flash, k: nat, r: nat, page: nat, a: nat, pages: nat)
    requires Valid(f) && TempBlank(f) && r < |f.temp| && page == Page(|f.temp|, k, r) && a == Base(|f.temp|, page) + r
    ensures StrideErased(EraseStride(f, a, Base(|f.temp|, pages)), f, page, pages)
    decreases pages - k, |f.temp| - r
  {
    var P := |f.temp|;
    StartBefore(P, page, pages);
    if page < pages {
      var e := Write(Erase(f, a), a);
      ErasePage(f, page, r);
      NextSkipped(P, k, r);
      NextAddress(P, k, r);
      var k', r' := if r + 1 < P then k else k + 1, if r + 1 < P then r + 1 else 0;
      StrideErases(e, k', r', Page(P, k', r'), a + P + 1, pages);
      StrideJoin(EraseStride(e, a + P + 1, Base(P, pages)), e, f, page, Page(P, k', r'), pages);
    }
  }

  /** The chip erase of a part with this many pages before the bootloader. */
  lemma ChipErase(f: Flash, pages: nat)
    requires Valid(f) && TempBlank(f)
    ensures StrideErased(EraseStride(f, 0, Base(|f.temp|, pages)), f, 0, pages)
  {
    FirstPage(|f.temp|);
    StrideErases(f, 0, 0, 0, 0, pages);
  }

  predicate ApplicationBlank(f: Flash, boot: nat) {
    forall i :: 0 <= i < |f.bytes| && i < boot ==> f.bytes[i] == BLANK
  }

  /** A part with this many pages before the bootloader, nothing waiting in its buffer. */
  predicate PartWith(f: Flash, P: nat, pages: nat) {
    Valid(f) && TempBlank(f) && |f.temp| == P && |f.bytes| >= Base(P, pages)
  }

  function Chip(f: Flash, P: nat, pages: nat): (r: Flash)
    requires PartWith(f, P, pages)
  {
    EraseStride(f, 0, Base(P, pages))
  }

  lemma BelowBoot(P: nat, pages: nat, i: nat)
    requires 0 < P && i < Base(P, pages) && pages <= P
    ensures PageOf(P, i) < pages && !Skipped(P, PageOf(P, i))
  {
    var page := PageOf(P, i);
    InStart(P, page, i);
    StartBefore(P, pages, page);
    DivMod(P + 1, page, 0, page);
  }

  lemma SmallPart(f: Flash, P: nat, pages: nat)
    requires PartWith(f, P, pages) && pages <= P
    ensures ApplicationBlank(Chip(f, P, pages), Base(P, pages))
  {
    ChipErase(f, pages);
    forall i | 0 <= i < |f.bytes| && i < Base(P, pages) ensures Chip(f, P, pages).bytes[i] == BLANK {
      BelowBoot(P, pages, i);
    }
  }

  lemma FirstSkipped(P: nat)
    requires P > 0
    ensures Skipped(P, P)
  {
  }

  lemma LargePart(P: nat, pages: nat) returns (f: Flash)
    requires PageSizeOk(P) && pages > P
    ensures PartWith(f, P, pages) && !ApplicationBlank(Chip(f, P, pages), Base(P, pages))
  {
    f := Flash(seq(Base(P, pages), _ => 0), AllBlank(P));
    ChipErase(f, pages);
    StartBefore(P, P, pages);
    StartAligned(P, P);
    FirstSkipped(P);
    assert Chip(f, P, pages).bytes[Base(P, P)] == 0;
  }

  /** The loop blanks the application whatever it was if and only if the application has at most P pages. */
  lemma ChipEraseExact(P: nat, pages: nat)
    requires PageSizeOk(P)
    ensures (forall f :: PartWith(f, P, pages) ==> ApplicationBlank(Chip(f, P, pages), Base(P, pages))) <==> pages <= P
  {
    if pages <= P {
      forall f | PartWith(f, P, pages) ensures ApplicationBlank(Chip(f, P, pages), Base(P, pages)) {
        SmallPart(f, P, pages);
      }
    } else {
      var f := LargePart(P, pages);
    }
  }

  // ----- the loader

  const MEMORY_EEPROM: bv8 := 0x45
  const MEMORY_FLASH: bv8 := 0x46
  const READ_BLOCK: bv8 := 0x67
  const DONE: bv8 := 0x0D
  const UNKNOWN: bv8 := 0x3F

  function Block(input: nat -> bv8, n: nat): (data: seq<bv8>)
    ensures |data| == n && forall i :: 0 <= i < n ==> data[i] == input(i)
  {
    Stream(input, n)
  }

  lemma NextCell(a: nat)
    ensures U16((a + 2) / 2) == U16(U16(a / 2) + 1)
  {
  }

  class Loader {
    const boot: nat
    var currAddress: nat
    var flash: Flash
    var eeprom: seq<bv8>

    predicate Ok()
      reads this
    {
      Valid(flash) && |eeprom| == EEPROM_SPACE && currAddress % 2 == 0
    }

    constructor (boot: nat, flash: Flash, eeprom: seq<bv8>)
      requires Valid(flash) && |eeprom| == EEPROM_SPACE
      ensures Ok() && this.boot == boot && this.flash == flash && this.eeprom == eeprom && currAddress == 0
    {
      this.boot, this.flash, this.eeprom, currAddress := boot, flash, eeprom, 0;
    }

    /** Bytes of the flash, low byte of a word first; the address moves on with every whole word. */
    method ReadFlashBlock(n: nat) returns (reply: seq<bv8>)
      requires Ok()
      modifies this`currAddress
      ensures Ok() && reply == FlashRead(flash, old(currAddress), n) && currAddress == old(currAddress) + WordBytes(n)
    {
      reply := [];
      var highByte, done := false, 0;
      while done < n
        invariant done <= n && Ok() && (highByte <==> done % 2 == 1) &&
                  currAddress == old(currAddress) + WordBytes(done)
        invariant reply == FlashRead(flash, old(currAddress), done)
      {
        reply := reply + [FlashByte(flash, currAddress + if highByte then 1 else 0)];
        if highByte {
          currAddress := currAddress + 2;
        }
        highByte := !highByte;
        done := done + 1;
      }
    }

    method ReadEepromBlock(n: nat) returns (reply: seq<bv8>)
      requires Ok()
      modifies this`currAddress
      ensures Ok() && currAddress == old(currAddress) + 2 * n
      ensures reply == EepromRead(eeprom, U16(old(currAddress) / 2), n)
    {
      reply := [];
      var done := 0;
      while done < n
        invariant done <= n && Ok() && currAddress == old(currAddress) + 2 * done
        invariant reply + EepromRead(eeprom, U16(currAddress / 2), n - done) ==
                  EepromRead(eeprom, U16(old(currAddress) / 2), n)
      {
        ReadOne(eeprom, U16(currAddress / 2), n - done, reply);
        reply := reply + [eeprom[U16(currAddress / 2)]];
        NextCell(currAddress);
        currAddress := currAddress + 2;
        done := done + 1;
      }
    }

    /** One byte of a block: the first of a word waits for the second. `rest` is what is not filled yet. */
    method FillByte(b: bv8, highByte: bool, lowByte: bv8, ghost rest: seq<bv8>)
      returns (highByte': bool, lowByte': bv8, ghost rest': seq<bv8>)
      requires Ok()
      requires if highByte then |rest| >= 2 && lowByte == rest[0] && b == rest[1] else |rest| >= 1 && b == rest[0]
      modifies this`currAddress, this`flash
      ensures Ok() && highByte' == !highByte && (highByte' ==> lowByte' == b)
      ensures rest' == (if highByte then rest[2..] else rest)
      ensures currAddress == old(currAddress) + if highByte then 2 else 0
      ensures FillBlock(flash, currAddress, rest') == FillBlock(old(flash), old(currAddress), rest)
    {
      highByte', lowByte', rest' := !highByte, lowByte, rest;
      if highByte {
        flash := Fill(flash, currAddress, lowByte, b);
        currAddress := currAddress + 2;
        rest' := rest[2..];
      } else {
        lowByte' := b;
      }
    }

    /** Fills the page buffer. */
    method FillPage(input: nat -> bv8, n: nat)
      requires Ok()
      modifies this`currAddress, this`flash
      ensures Ok() && flash == FillBlock(old(flash), old(currAddress), Block(input, n))
      ensures currAddress == old(currAddress) + WordBytes(n)
    {
      var highByte, lowByte, done := false, 0, 0;
      ghost var data := Block(input, n);
      ghost var rest, words := data, 0;
      while done < n
        invariant done <= n && done == 2 * words + (if highByte then 1 else 0)
        invariant Ok() && currAddress == old(currAddress) + 2 * words && rest == data[2 * words..]
        invariant highByte ==> lowByte == rest[0]
        invariant FillBlock(flash, currAddress, rest) == FillBlock(old(flash), old(currAddress), data)
      {
        words := words + if highByte then 1 else 0;
        highByte, lowByte, rest := FillByte(input(done), highByte, lowByte, rest);
        done := done + 1;
      }
    }

    method WriteEepromBlock(input: nat -> bv8, n: nat)
      requires Ok()
      modifies this`currAddress, this`eeprom
      ensures Ok() && currAddress == old(currAddress) + 2 * n
      ensures eeprom == EepromStored(old(eeprom), U16(old(currAddress) / 2), Block(input, n))
    {
      var done := 0;
      ghost var data := Block(input, n);
      ghost var rest := data;
      while done < n
        invariant done <= n && Ok() && currAddress == old(currAddress) + 2 * done && rest == data[done..]
        invariant EepromStored(eeprom, U16(currAddress / 2), rest) ==
                  EepromStored(old(eeprom), U16(old(currAddress) / 2), data)
      {
        eeprom := eeprom[U16(currAddress / 2) := input(done)];
        NextCell(currAddress);
        currAddress := currAddress + 2;
        done := done + 1;
        rest := rest[1..];
      }
    }

    /**
     A block command, 0x67 (`g`) for a read; `input` are the bytes behind the two of the size and that of the
     memory, which is 0x46 (`F`) for the flash or 0x45 (`E`) for the EEPROM.
     */
    method ReadWriteMemoryBlock(command: bv8, sizeHigh: bv8, sizeLow: bv8, memory: bv8, input: nat -> bv8)
      returns (reply: seq<bv8>)
      requires Ok()
      modifies this
      ensures Ok()
      ensures memory != 0x45 && memory != 0x46 ==>
                reply == [0x3F] && flash == old(flash) && eeprom == old(eeprom) && currAddress == old(currAddress)
      ensures memory == 0x46 ==>
                eeprom == old(eeprom) && currAddress == old(currAddress) + WordBytes(Wide(sizeHigh, sizeLow))
      ensures memory == 0x46 && command == 0x67 ==>
                flash == old(flash) && reply == FlashRead(flash, old(currAddress), Wide(sizeHigh, sizeLow))
      ensures memory == 0x46 && command != 0x67 ==>
                && reply == [0x0D]
                && flash == WriteBlock(old(flash), old(currAddress), Block(input, Wide(sizeHigh, sizeLow)))
      ensures memory == 0x45 ==>
                flash == old(flash) && currAddress == old(currAddress) + 2 * Wide(sizeHigh, sizeLow)
      ensures memory == 0x45 && command == 0x67 ==>
                eeprom == old(eeprom) && reply == EepromRead(eeprom, U16(old(currAddress) / 2), Wide(sizeHigh, sizeLow))
      ensures memory == 0x45 && command != 0x67 ==>
                reply == [0x0D] &&
                eeprom == EepromStored(old(eeprom), U16(old(currAddress) / 2), Block(input, Wide(sizeHigh, sizeLow)))
    {
      var blockSize := Wide(sizeHigh, sizeLow);
      if memory != MEMORY_EEPROM && memory != MEMORY_FLASH {
        reply := [UNKNOWN];
      } else if command == READ_BLOCK {
        if memory == MEMORY_FLASH {
          reply := ReadFlashBlock(blockSize);
        } else {
          reply := ReadEepromBlock(blockSize);
        }
      } else {
        var pageStartAddress := currAddress;
        if memory == MEMORY_FLASH {
          flash := Erase(flash, pageStartAddress);
          FillPage(input, blockSize);
          flash := Write(flash, pageStartAddress);
        } else {
          WriteEepromBlock(input, blockSize);
        }
        reply := [DONE];
      }
    }

    /** The command `e`. */
    method EraseChip() returns (reply: seq<bv8>)
      requires Ok()
      modifies this`flash
      ensures Ok() && flash == EraseStride(old(flash), 0, boot) && reply == [0x0D]
    {
      var currFlashAddress := 0;
      while currFlashAddress < boot
        invariant Valid(flash) && EraseStride(flash, currFlashAddress, boot) == EraseStride(old(flash), 0, boot)
        decreases boot - currFlashAddress
      {
        flash := Erase(flash, currFlashAddress);
        flash := Write(flash, currFlashAddress);
        currFlashAddress := currFlashAddress + |flash.temp|;
        currFlashAddress := currFlashAddress + 1;
      }
      reply := [DONE];
    }
  }
}
