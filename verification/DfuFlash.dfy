/** What the DFU bootloader's download does to the flash, and when that is right. */
module DfuFlash {
  import opened AvrFlash

  /** The store instructions of a download: `inPage` words have been filled since the last page was written. */
  function Program(f: Flash, pageStart: nat, addr: nat, inPage: nat, data: seq<bv8>): (r: Flash)
    requires Valid(f)
    ensures Valid(r) && |r.bytes| == |f.bytes| && |r.temp| == |f.temp|
    decreases |data|
  {
    if |data| < 2 then f
    else
      var filled := Fill(f, addr, data[0], data[1]);
      if inPage + 1 == |f.temp| / 2 || |data| < 4 then
        var written := Write(filled, pageStart);
        if |data| >= 4 then Program(Erase(written, addr + 2), addr + 2, addr + 2, 0, data[2..]) else written
      else
        Program(filled, pageStart, addr + 2, inPage + 1, data[2..])
  }

  /**
   What programming `data` from place o of the erased page at c leaves of a byte: the buffer's own bytes below
   the data, the data, ones up to the end of the last page, and everything else as it was.
   */
  function Wanted(f: Flash, c: nat, o: nat, data: seq<bv8>, end: nat, i: nat): (b: bv8)
    requires i < |f.bytes| && o <= |f.temp|
  {
    if i < c || end <= i then f.bytes[i]
    else if i < c + o then f.temp[i - c]
    else if i < c + o + |data| then data[i - (c + o)]
    else BLANK
  }

  /** The state in the middle of a page: the page is erased and the rest of the buffer blank. */
  predicate MidPage(f: Flash, c: nat, o: nat) {
    && Valid(f) && Aligned(|f.temp|, c) && o < |f.temp| && o % 2 == 0
    && (forall j :: o <= j < |f.temp| ==> f.temp[j] == BLANK)
    && (forall i :: 0 <= i < |f.bytes| && In(|f.temp|, c, i) ==> f.bytes[i] == BLANK)
  }

  predicate Left(r: Flash, f: Flash, c: nat, o: nat, data: seq<bv8>, end: nat)
    requires o <= |f.temp|
  {
    && |r.bytes| == |f.bytes| && |r.temp| == |f.temp| && TempBlank(r)
    && forall i :: 0 <= i < |f.bytes| ==> r.bytes[i] == Wanted(f, c, o, data, end, i)
  }

  /** The end of the last page that the data touches. */
  predicate LastEnd(P: nat, end: nat, last: nat) {
    Aligned(P, end) && last <= end < last + P
  }

  /** One step of programming. */
  lemma ProgramStep(f: Flash, pageStart: nat, addr: nat, inPage: nat, data: seq<bv8>)
    requires Valid(f) && |data| >= 2
    ensures var filled := Fill(f, addr, data[0], data[1]);
            && (|data| < 4 ==> Program(f, pageStart, addr, inPage, data) == Write(filled, pageStart))
            && (|data| >= 4 && inPage + 1 == |f.temp| / 2 ==>
                 Program(f, pageStart, addr, inPage, data) ==
                   Program(Erase(Write(filled, pageStart), addr + 2), addr + 2, addr + 2, 0, data[2..]))
            && (|data| >= 4 && inPage + 1 != |f.temp| / 2 ==>
                 Program(f, pageStart, addr, inPage, data) ==
                   Program(filled, pageStart, addr + 2, inPage + 1, data[2..]))
  {
  }

  /** When the counter says that the page is full. */
  lemma FullPage(P: nat, c: nat, o: nat, inPage: nat, n: nat, end: nat)
    requires PageSizeOk(P) && Aligned(P, c) && o < P && o % 2 == 0 && n % 2 == 0 && n > 2
    requires inPage == o / 2 || (inPage < o / 2 && o + n <= P)
    requires LastEnd(P, end, c + o + n)
    ensures inPage + 1 == P / 2 <==> o + 2 == P
    ensures o + 2 == P ==> inPage == o / 2 && c + 2 * P <= end
    ensures o + 2 < P ==> inPage + 1 == (o + 2) / 2 || (inPage + 1 < (o + 2) / 2 && o + 2 + (n - 2) <= P)
  {
    NextAligned(P, c);
    if o + 2 == P && end < c + 2 * P {
      SameStart(P, c + P, end);
    }
  }

  /** A loader that has n bytes to go, in the page at c, of which it has filled some words up to place o. */
  predicate Ready(f: Flash, pageStart: nat, c: nat, o: nat, inPage: nat, n: nat, end: nat) {
    && MidPage(f, c, o) && In(|f.temp|, c, pageStart) && n > 0 && n % 2 == 0
    && (inPage == o / 2 || (inPage < o / 2 && o + n <= |f.temp|))
    && LastEnd(|f.temp|, end, c + o + n)
  }

  /** The state after a page change. */
  function NextState(f: Flash, pageStart: nat, c: nat, o: nat, data: seq<bv8>): (next: Flash)
    requires Valid(f) && |data| >= 2
  {
    Erase(Write(Fill(f, c + o, data[0], data[1]), pageStart), c + |f.temp|)
  }

  lemma RestEven(P: nat, c: nat, o: nat, data: seq<bv8>, end: nat)
    requires |data| > 2 && |data| % 2 == 0 && o + 2 == P && LastEnd(P, end, c + o + |data|)
    ensures |data[2..]| > 0 && |data[2..]| % 2 == 0 && LastEnd(P, end, c + P + 0 + |data[2..]|)
  {
    assert c + P + 0 + |data[2..]| == c + o + |data|;
  }

  lemma {:induction false} NextPage(f: Flash, pageStart: nat, c: nat, o: nat, data: seq<bv8>, end: nat)
    requires MidPage(f, c, o) && In(|f.temp|, c, pageStart) && o + 2 == |f.temp| && |data| > 2
    requires LastEnd(|f.temp|, end, c + o + |data|)
    ensures var next := Erase(Write(Fill(f, c + o, data[0], data[1]), pageStart), c + |f.temp|);
            && |next.temp| == |f.temp| && MidPage(next, c + |f.temp|, 0) && TempBlank(next)
            && |next.bytes| == |f.bytes|
            && forall i :: 0 <= i < |f.bytes| && !In(|f.temp|, c + |f.temp|, i) ==>
                 next.bytes[i] == Wanted(f, c, o, data[..2], c + |f.temp|, i)
  {
    var P := |f.temp|;
    var filled := Fill(f, c + o, data[0], data[1]);
    FillAt(f, c, o, data[0], data[1]);
    WriteAt(filled, c, pageStart);
    NextAligned(P, c);
    EraseAt(Write(filled, pageStart), c + P, c + P);
  }

  lemma {:induction false} ReadyNext(f: Flash, pageStart: nat, c: nat, o: nat, inPage: nat, data: seq<bv8>, end: nat)
    requires Ready(f, pageStart, c, o, inPage, |data|, end) && |data| > 2 && o + 2 == |f.temp|
    ensures var next := NextState(f, pageStart, c, o, data);
            |next.temp| == |f.temp| && Ready(next, c + |f.temp|, c + |f.temp|, 0, 0, |data[2..]|, end)
  {
    NextPage(f, pageStart, c, o, data, end);
    RestEven(|f.temp|, c, o, data, end);
  }

  lemma {:induction false} NextLeft(r: Flash, next: Flash, f: Flash, c: nat, o: nat, data: seq<bv8>, end: nat)
    requires Valid(f) && o + 2 == |f.temp| == |next.temp| && |data| > 2 && |next.bytes| == |f.bytes|
    requires c + |f.temp| < end && LastEnd(|f.temp|, end, c + o + |data|)
    requires forall i :: 0 <= i < |f.bytes| && !In(|f.temp|, c + |f.temp|, i) ==>
               next.bytes[i] == Wanted(f, c, o, data[..2], c + |f.temp|, i)
    requires c + 2 * |f.temp| <= end
    requires Left(r, next, c + |f.temp|, 0, data[2..], end)
    ensures Left(r, f, c, o, data, end)
  {
    forall i | 0 <= i < |f.bytes| ensures r.bytes[i] == Wanted(f, c, o, data, end, i) {
      assert r.bytes[i] == Wanted(next, c + |f.temp|, 0, data[2..], end, i);
    }
  }

  lemma {:induction false} LeftNext(r: Flash, f: Flash, pageStart: nat, c: nat, o: nat, inPage: nat, data: seq<bv8>,
                                    end: nat)
    requires Ready(f, pageStart, c, o, inPage, |data|, end) && |data| > 2 && o + 2 == |f.temp|
    requires Left(r, NextState(f, pageStart, c, o, data), c + |f.temp|, 0, data[2..], end)
    ensures Left(r, f, c, o, data, end)
  {
    FullPage(|f.temp|, c, o, inPage, |data|, end);
    NextPage(f, pageStart, c, o, data, end);
    NextLeft(r, NextState(f, pageStart, c, o, data), f, c, o, data, end);
  }

  lemma FilledMid(f: Flash, c: nat, o: nat, lo: bv8, hi: bv8)
    requires MidPage(f, c, o) && o + 2 < |f.temp|
    ensures var filled := Fill(f, c + o, lo, hi);
            MidPage(filled, c, o + 2) && filled == f.(temp := f.temp[o := lo][o + 1 := hi])
  {
    FillAt(f, c, o, lo, hi);
  }

  lemma {:induction false} ReadyMore(f: Flash, pageStart: nat, c: nat, o: nat, inPage: nat, data: seq<bv8>, end: nat)
    requires Ready(f, pageStart, c, o, inPage, |data|, end) && |data| > 2 && o + 2 < |f.temp|
    ensures var filled := Fill(f, c + o, data[0], data[1]);
            && Ready(filled, pageStart, c, o + 2, inPage + 1, |data[2..]|, end)
            && filled == f.(temp := f.temp[o := data[0]][o + 1 := data[1]])
  {
    FullPage(|f.temp|, c, o, inPage, |data|, end);
    FilledMid(f, c, o, data[0], data[1]);
    assert c + (o + 2) + |data[2..]| == c + o + |data|;
  }

  lemma ProgramTurns(f: Flash, pageStart: nat, c: nat, o: nat, inPage: nat, data: seq<bv8>)
    requires Valid(f) && |data| >= 4 && inPage + 1 == |f.temp| / 2 && o + 2 == |f.temp|
    ensures Program(f, pageStart, c + o, inPage, data) ==
            Program(NextState(f, pageStart, c, o, data), c + |f.temp|, c + |f.temp|, 0, data[2..])
  {
    ProgramStep(f, pageStart, c + o, inPage, data);
    assert c + o + 2 == c + |f.temp|;
  }

  lemma ProgramStays(f: Flash, pageStart: nat, c: nat, o: nat, inPage: nat, data: seq<bv8>)
    requires Valid(f) && |data| >= 4 && inPage + 1 != |f.temp| / 2
    ensures Program(f, pageStart, c + o, inPage, data) ==
            Program(Fill(f, c + o, data[0], data[1]), pageStart, c + (o + 2), inPage + 1, data[2..])
  {
    ProgramStep(f, pageStart, c + o, inPage, data);
    assert c + o + 2 == c + (o + 2);
  }

  lemma {:induction false} FilledLeft(r: Flash, filled: Flash, f: Flash, c: nat, o: nat, data: seq<bv8>, end: nat)
    requires o + 2 <= |f.temp| && |data| > 2 && c + o + 2 <= end
    requires filled == f.(temp := f.temp[o := data[0]][o + 1 := data[1]])
    requires Left(r, filled, c, o + 2, data[2..], end)
    ensures Left(r, f, c, o, data, end)
  {
    forall i | 0 <= i < |f.bytes| ensures r.bytes[i] == Wanted(f, c, o, data, end, i) {
      assert r.bytes[i] == Wanted(filled, c, o + 2, data[2..], end, i);
    }
  }

  lemma {:induction false} LastPage(f: Flash, pageStart: nat, c: nat, o: nat, data: seq<bv8>, end: nat)
    requires MidPage(f, c, o) && In(|f.temp|, c, pageStart) && |data| == 2
    requires LastEnd(|f.temp|, end, c + o + 2)
    ensures Left(Write(Fill(f, c + o, data[0], data[1]), pageStart), f, c, o, data, end)
  {
    var P := |f.temp|;
    var filled := Fill(f, c + o, data[0], data[1]);
    FillAt(f, c, o, data[0], data[1]);
    WriteAt(filled, c, pageStart);
    NextAligned(P, c);
    if end < c + P { SameStart(P, c, end); } else { SameStart(P, c + P, end); }
    var r := Write(filled, pageStart);
    forall i | 0 <= i < |f.bytes| ensures r.bytes[i] == Wanted(f, c, o, data, end, i) {
    }
  }

  lemma {:induction false} ProgramMore(f: Flash, pageStart: nat, c: nat, o: nat, inPage: nat, data: seq<bv8>, end: nat)
    requires Ready(f, pageStart, c, o, inPage, |data|, end) && |data| > 2
    ensures Left(Program(f, pageStart, c + o, inPage, data), f, c, o, data, end)
    decreases |data|, 0
  {
    FullPage(|f.temp|, c, o, inPage, |data|, end);
    if o + 2 == |f.temp| {
      var next, d := NextState(f, pageStart, c, o, data), c + |f.temp|;
      ReadyNext(f, pageStart, c, o, inPage, data, end);
      ProgramLeaves(next, d, d, 0, 0, data[2..], end);
      LeftNext(Program(next, d, d, 0, data[2..]), f, pageStart, c, o, inPage, data, end);
      ProgramTurns(f, pageStart, c, o, inPage, data);
    } else {
      var filled := Fill(f, c + o, data[0], data[1]);
      ReadyMore(f, pageStart, c, o, inPage, data, end);
      ProgramLeaves(filled, pageStart, c, o + 2, inPage + 1, data[2..], end);
      FilledLeft(Program(filled, pageStart, c + (o + 2), inPage + 1, data[2..]), filled, f, c, o, data, end);
      ProgramStays(f, pageStart, c, o, inPage, data);
    }
  }

  lemma {:induction false} ProgramLeaves(f: Flash, pageStart: nat, c: nat, o: nat, inPage: nat, data: seq<bv8>,
                                         end: nat)
    requires Ready(f, pageStart, c, o, inPage, |data|, end)
    ensures Left(Program(f, pageStart, c + o, inPage, data), f, c, o, data, end)
    decreases |data|, 1
  {
    ProgramStep(f, pageStart, c + o, inPage, data);
    if |data| == 2 {
      LastPage(f, pageStart, c, o, data, end);
    } else {
      ProgramMore(f, pageStart, c, o, inPage, data, end);
    }
  }

  // ----- the whole download

  function PageStart(P: nat, a: nat): (c: nat)
    requires P > 0
  {
    a - OffOf(P, a)
  }

  /** The end of the page that holds the byte before `a`. */
  function PageEnd(P: nat, a: nat): (e: nat)
    requires P > 0 && a > 0
  {
    PageStart(P, a - 1) + P
  }

  /** A download of `data` to `s`: the page of `s` is erased first. */
  function Download(f: Flash, s: nat, data: seq<bv8>): (r: Flash)
    requires Valid(f)
  {
    Program(Erase(f, s), s, s, 0, data)
  }

  /** Where a download may go: from the start of a page on, or anywhere within one page. */
  predicate PlaceOk(P: nat, s: nat, n: nat)
    requires P > 0
  {
    Aligned(P, s) || OffOf(P, s) + n <= P
  }

  lemma Ends(P: nat, s: nat, n: nat)
    requires P > 0 && n > 0
    ensures LastEnd(P, PageEnd(P, s + n), s + n)
  {
    StartOfPage(P, s + n - 1);
    NextAligned(P, PageStart(P, s + n - 1));
  }

  /**
   The data is in place, the rest of every page it touches is blank, and every other byte is as it was.
   */
  predicate Downloaded(r: Flash, f: Flash, s: nat, data: seq<bv8>)
    requires Valid(f) && data != []
  {
    && |r.bytes| == |f.bytes| && |r.temp| == |f.temp| && TempBlank(r)
    && forall i :: 0 <= i < |f.bytes| ==>
         r.bytes[i] == if s <= i < s + |data| then data[i - s]
                       else if PageStart(|f.temp|, s) <= i < PageEnd(|f.temp|, s + |data|) then BLANK
                       else f.bytes[i]
  }

  lemma DownloadReady(f: Flash, s: nat, n: nat)
    requires Valid(f) && TempBlank(f) && s % 2 == 0 && n % 2 == 0 && n > 0 && PlaceOk(|f.temp|, s, n)
    ensures var P := |f.temp|;
            Ready(Erase(f, s), s, PageStart(P, s), OffOf(P, s), 0, n, PageEnd(P, s + n))
  {
    var P := |f.temp|;
    StartOfPage(P, s);
    PageRange(P, PageStart(P, s), s);
    EraseAt(f, PageStart(P, s), s);
    SameParity(P, s);
    Ends(P, s, n);
  }

  /** The page erased first is among the pages touched. */
  lemma ErasedFirst(f: Flash, s: nat, data: seq<bv8>, i: nat)
    requires Valid(f) && data != [] && i < |f.bytes| && !(PageStart(|f.temp|, s) <= i < PageEnd(|f.temp|, s + |data|))
    ensures Erase(f, s).bytes[i] == f.bytes[i]
  {
    var P := |f.temp|;
    var c := PageStart(P, s);
    StartOfPage(P, s);
    PageRange(P, c, s);
    PageRange(P, c, i);
    Ends(P, s, |data|);
    var end := PageEnd(P, s + |data|);
    NextAligned(P, c);
    if end < c + P {
      SameStart(P, c, end);
    }
  }

  lemma DownloadLeft(f: Flash, s: nat, data: seq<bv8>)
    requires Valid(f) && TempBlank(f) && s % 2 == 0 && |data| % 2 == 0 && data != []
    requires PlaceOk(|f.temp|, s, |data|)
    ensures var P := |f.temp|;
            Left(Download(f, s, data), Erase(f, s), PageStart(P, s), OffOf(P, s), data, PageEnd(P, s + |data|))
  {
    var P := |f.temp|;
    DownloadReady(f, s, |data|);
    ProgramLeaves(Erase(f, s), s, PageStart(P, s), OffOf(P, s), 0, data, PageEnd(P, s + |data|));
    assert PageStart(P, s) + OffOf(P, s) == s;
  }

  lemma DownloadRight(f: Flash, s: nat, data: seq<bv8>)
    requires Valid(f) && TempBlank(f) && s % 2 == 0 && |data| % 2 == 0 && data != []
    requires PlaceOk(|f.temp|, s, |data|)
    ensures Downloaded(Download(f, s, data), f, s, data)
  {
    var P := |f.temp|;
    var c, o, end := PageStart(P, s), OffOf(P, s), PageEnd(P, s + |data|);
    var erased, r := Erase(f, s), Download(f, s, data);
    DownloadLeft(f, s, data);
    forall i | 0 <= i < |f.bytes|
      ensures r.bytes[i] == if s <= i < s + |data| then data[i - s] else if c <= i < end then BLANK else f.bytes[i]
    {
      assert r.bytes[i] == Wanted(erased, c, o, data, end, i);
      if !(c <= i < end) {
        ErasedFirst(f, s, data, i);
      }
    }
  }

  // ----- downloads that lose data

  predicate AllOnes(data: seq<bv8>, from: int) {
    forall j :: 0 <= j < |data| && from <= j ==> data[j] == BLANK
  }

  lemma OnesTail(data: seq<bv8>, from: int)
    requires AllOnes(data, from) && |data| > 2
    ensures AllOnes(data[2..], from - 2)
  {
  }

  lemma FillOnes(f: Flash, a: nat)
    requires Valid(f)
    ensures Fill(f, a, BLANK, BLANK) == f
  {
    var o := WordPlace(|f.temp|, a);
    BlankAnd(f.temp[o]);
    BlankAnd(f.temp[o + 1]);
    assert f.temp[o := f.temp[o]][o + 1 := f.temp[o + 1]] == f.temp;
  }

  /** Writing a blank buffer changes no byte. */
  lemma WriteOnes(f: Flash, a: nat)
    requires Valid(f) && TempBlank(f)
    ensures Write(f, a) == f
  {
    forall i | 0 <= i < |f.bytes| ensures Write(f, a).bytes[i] == f.bytes[i] {
      BlankAnd(f.bytes[i]);
    }
  }

  /** One step of programming ones. */
  lemma OnesStep(f: Flash, pageStart: nat, addr: nat, inPage: nat, data: seq<bv8>)
    requires Valid(f) && TempBlank(f) && AllOnes(data, 0) && |data| >= 2
    ensures |data| < 4 ==> Program(f, pageStart, addr, inPage, data) == f
    ensures |data| >= 4 && inPage + 1 == |f.temp| / 2 ==>
              Program(f, pageStart, addr, inPage, data) == Program(Erase(f, addr + 2), addr + 2, addr + 2, 0, data[2..])
    ensures |data| >= 4 && inPage + 1 != |f.temp| / 2 ==>
              Program(f, pageStart, addr, inPage, data) == Program(f, pageStart, addr + 2, inPage + 1, data[2..])
  {
    assert data[0] == BLANK && data[1] == BLANK;
    FillOnes(f, addr);
    WriteOnes(f, pageStart);
    ProgramStep(f, pageStart, addr, inPage, data);
  }

  lemma OnesNext(f: Flash, a: nat, data: seq<bv8>)
    requires Valid(f) && TempBlank(f) && AllOnes(data, 0) && |data| > 2
    ensures AllOnes(data[2..], 0)
    ensures Valid(Erase(f, a)) && TempBlank(Erase(f, a))
  {
    OnesTail(data, 0);
  }

  predicate KeptOrBlank(r: Flash, f: Flash, x: nat)
    requires x < |f.bytes|
  {
    |r.bytes| == |f.bytes| && (r.bytes[x] == f.bytes[x] || r.bytes[x] == BLANK)
  }

  /** Programming ones leaves a byte as it is, or erases it. */
  lemma {:induction false} OnesHarmless(f: Flash, pageStart: nat, addr: nat, inPage: nat, data: seq<bv8>, x: nat)
    requires Valid(f) && TempBlank(f) && AllOnes(data, 0) && x < |f.bytes|
    ensures KeptOrBlank(Program(f, pageStart, addr, inPage, data), f, x)
    decreases |data|
  {
    if |data| >= 2 {
      OnesStep(f, pageStart, addr, inPage, data);
      if |data| >= 4 {
        var rest, erased := data[2..], Erase(f, addr + 2);
        OnesNext(f, addr + 2, data);
        OnesHarmless(erased, addr + 2, addr + 2, 0, rest, x);
        OnesHarmless(f, pageStart, addr + 2, inPage + 1, rest, x);
      }
    }
  }

  /** Until the first write, only the page of `pageStart` is at stake. */
  lemma {:induction false} OtherPage(f: Flash, pageStart: nat, addr: nat, inPage: nat, data: seq<bv8>, x: nat)
    requires Valid(f) && x < |f.bytes| && !SamePage(|f.temp|, pageStart, x)
    requires AllOnes(data, |f.temp| - 2 * inPage)
    ensures KeptOrBlank(Program(f, pageStart, addr, inPage, data), f, x)
    decreases |data|
  {
    if |data| >= 2 {
      var filled := Fill(f, addr, data[0], data[1]);
      var written := Write(filled, pageStart);
      WriteElsewhere(filled, pageStart, x);
      ProgramStep(f, pageStart, addr, inPage, data);
      if |data| >= 4 {
        if inPage + 1 == |f.temp| / 2 {
          assert AllOnes(data[2..], 0);
          OnesHarmless(Erase(written, addr + 2), addr + 2, addr + 2, 0, data[2..], x);
        } else {
          OtherPage(filled, pageStart, addr + 2, inPage + 1, data[2..], x);
        }
      }
    }
  }

  /** All ones but for one byte. */
  function OneByte(n: nat, at: nat, v: bv8): (r: seq<bv8>)
    ensures |r| == n
  {
    seq(n, j => if j == at then v else BLANK)
  }

  /** A value that a byte has neither now nor when it is blank. */
  function Another(b: bv8): (v: bv8)
    ensures v != b && v != BLANK
  {
    if b == 0 then 1 else 0
  }

  lemma NotInPlace(f: Flash, r: Flash, s: nat, data: seq<bv8>, x: nat)
    requires s <= x < s + |data| <= |f.bytes| == |r.bytes| && data[x - s] == Another(f.bytes[x])
    requires r.bytes[x] == f.bytes[x] || r.bytes[x] == BLANK
    ensures !InPlace(r, s, data)
  {
    assert r.bytes[s..s + |data|][x - s] == r.bytes[x];
  }

  /** A download that crosses a page: the byte at the start of the second page, as something it can not become. */
  lemma CrossingFails(f: Flash, s: nat, n: nat) returns (data: seq<bv8>)
    requires Valid(f) && s + n <= |f.bytes| && !PlaceOk(|f.temp|, s, n)
    ensures |data| == n && !InPlace(Download(f, s, data), s, data)
  {
    var P := |f.temp|;
    var c := PageStart(P, s);
    var x := c + P;
    data := OneByte(n, x - s, Another(f.bytes[x]));
    StartOfPage(P, s);
    PageRange(P, c, x);
    PageRange(P, c, s);
    OtherPage(Erase(f, s), s, s, 0, data, x);
    NotInPlace(f, Download(f, s, data), s, data, x);
  }

  lemma WordsTail(data: seq<bv8>)
    requires |data| >= 2
    ensures var words := data[..WordBytes(|data|)];
            && |words| >= 2 && words[0] == data[0] && words[1] == data[1] && (|words| >= 4 <==> |data| >= 4)
            && words[2..] == data[2..][..WordBytes(|data[2..]|)]
  {
  }

  /** A byte without a partner is not programmed. */
  lemma {:induction false} WholeWords(f: Flash, pageStart: nat, addr: nat, inPage: nat, data: seq<bv8>)
    requires Valid(f)
    ensures Program(f, pageStart, addr, inPage, data) == Program(f, pageStart, addr, inPage, data[..WordBytes(|data|)])
    decreases |data|
  {
    var words := data[..WordBytes(|data|)];
    if |data| >= 2 {
      ProgramStep(f, pageStart, addr, inPage, data);
      ProgramStep(f, pageStart, addr, inPage, words);
      var filled := Fill(f, addr, data[0], data[1]);
      WordsTail(data);
      if |data| >= 4 {
        if inPage + 1 == |f.temp| / 2 {
          WholeWords(Erase(Write(filled, pageStart), addr + 2), addr + 2, addr + 2, 0, data[2..]);
        } else {
          WholeWords(filled, pageStart, addr + 2, inPage + 1, data[2..]);
        }
      }
    }
  }

  /** An odd number of bytes: the last one, behind a stream of ones. */
  lemma OddCountFails(f: Flash, s: nat, n: nat) returns (data: seq<bv8>)
    requires Valid(f) && TempBlank(f) && n % 2 == 1 && s + n <= |f.bytes|
    ensures |data| == n && !InPlace(Download(f, s, data), s, data)
  {
    var x, erased := s + n - 1, Erase(f, s);
    data := OneByte(n, n - 1, Another(f.bytes[x]));
    WholeWords(erased, s, s, 0, data);
    OnesHarmless(erased, s, s, 0, data[..WordBytes(n)], x);
    NotInPlace(f, Download(f, s, data), s, data, x);
  }

  /** The bytes that go to odd addresses. */
  predicate HighOnes(data: seq<bv8>) {
    forall j :: 0 <= j < |data| && j % 2 == 1 ==> data[j] == BLANK
  }

  lemma HighOnesTail(data: seq<bv8>)
    requires HighOnes(data) && |data| >= 2
    ensures HighOnes(data[2..]) && data[1] == BLANK
  {
    forall j | 0 <= j < |data[2..]| && j % 2 == 1 ensures data[2..][j] == BLANK {
      assert (j + 2) % 2 == 1;
    }
  }

  /** A byte at an odd address, and the place for it in the buffer, are blank. */
  predicate OddBlank(f: Flash, x: nat) {
    && Valid(f) && x < |f.bytes| && OffOf(|f.temp|, x) % 2 == 1
    && f.bytes[x] == BLANK && f.temp[OffOf(|f.temp|, x)] == BLANK
  }

  /** Filling a word whose high byte is ones, writing, and erasing keep it so. */
  lemma OddBlankKept(f: Flash, a: nat, lo: bv8, x: nat, page: nat)
    requires OddBlank(f, x)
    ensures OddBlank(Fill(f, a, lo, BLANK), x) && OddBlank(Write(f, page), x) && OddBlank(Erase(f, page), x)
  {
    var o := WordPlace(|f.temp|, a);
    BlankAnd(f.temp[o + 1]);
    BlankAnd(BLANK);
  }

  lemma {:induction false} OddStaysBlank(f: Flash, pageStart: nat, addr: nat, inPage: nat, data: seq<bv8>, x: nat)
    requires OddBlank(f, x) && HighOnes(data)
    ensures OddBlank(Program(f, pageStart, addr, inPage, data), x)
    decreases |data|
  {
    if |data| >= 2 {
      var filled, rest := Fill(f, addr, data[0], data[1]), data[2..];
      var written := Write(filled, pageStart);
      HighOnesTail(data);
      ProgramStep(f, pageStart, addr, inPage, data);
      OddBlankKept(f, addr, data[0], x, 0);
      OddBlankKept(filled, 0, 0, x, pageStart);
      OddBlankKept(written, 0, 0, x, addr + 2);
      OddStaysBlank(Erase(written, addr + 2), addr + 2, addr + 2, 0, rest, x);
      OddStaysBlank(filled, pageStart, addr + 2, inPage + 1, rest, x);
    }
  }

  /** An odd start: its first byte goes one place too low. */
  lemma OddStartFails(f: Flash, s: nat, n: nat) returns (data: seq<bv8>)
    requires Valid(f) && TempBlank(f) && s % 2 == 1 && n > 0 && s + n <= |f.bytes|
    ensures |data| == n && !InPlace(Download(f, s, data), s, data)
  {
    data := OneByte(n, 0, 0);
    SameParity(|f.temp|, s);
    OddStaysBlank(Erase(f, s), s, s, 0, data, s);
    assert Download(f, s, data).bytes[s..s + n][0] == BLANK != data[0];
  }

  /** What a download must be: whole words, from an even address, from the start of a page or within one. */
  predicate DownloadOk(P: nat, s: nat, n: nat)
    requires P > 0
  {
    n == 0 || (s % 2 == 0 && n % 2 == 0 && PlaceOk(P, s, n))
  }

  lemma DownloadLoses(f: Flash, s: nat, n: nat) returns (data: seq<bv8>)
    requires Valid(f) && TempBlank(f) && s + n <= |f.bytes| && !DownloadOk(|f.temp|, s, n)
    ensures |data| == n && !InPlace(Download(f, s, data), s, data)
  {
    if s % 2 == 1 {
      data := OddStartFails(f, s, n);
    } else if n % 2 == 1 {
      data := OddCountFails(f, s, n);
    } else {
      data := CrossingFails(f, s, n);
    }
  }

  /** A download of n bytes keeps every stream if and only if that is so. */
  lemma DownloadExact(f: Flash, s: nat, n: nat)
    requires Valid(f) && TempBlank(f) && s + n <= |f.bytes|
    ensures (forall data :: |data| == n ==> InPlace(Download(f, s, data), s, data)) <==> DownloadOk(|f.temp|, s, n)
  {
    if DownloadOk(|f.temp|, s, n) {
      forall data | |data| == n ensures InPlace(Download(f, s, data), s, data) {
        if n > 0 {
          DownloadRight(f, s, data);
        }
      }
    } else {
      var data := DownloadLoses(f, s, n);
    }
  }

  // ----- erasing the application

  /** The erase loop: from page to page, erasing and writing. */
  function EraseFrom(f: Flash, a: nat, boot: nat): (r: Flash)
    requires Valid(f)
    ensures |r.bytes| == |f.bytes| && |r.temp| == |f.temp|
    decreases boot - a
  {
    if a >= boot then f else EraseFrom(Write(Erase(f, a), a), a + |f.temp|, boot)
  }

  lemma {:induction false} EraseAll(f: Flash, a: nat, boot: nat)
    requires Valid(f) && TempBlank(f) && Aligned(|f.temp|, a) && Aligned(|f.temp|, boot) && a <= boot
    ensures TempBlank(EraseFrom(f, a, boot))
    ensures forall i :: 0 <= i < |f.bytes| ==>
              EraseFrom(f, a, boot).bytes[i] == if a <= i < boot then BLANK else f.bytes[i]
    decreases boot - a
  {
    if a < boot {
      var P := |f.temp|;
      var next := Write(Erase(f, a), a);
      EraseAt(f, a, a);
      WriteAt(Erase(f, a), a, a);
      NextAligned(P, a);
      if boot < a + P {
        SameStart(P, a, boot);
      }
      EraseAll(next, a + P, boot);
      forall i | 0 <= i < |f.bytes|
        ensures EraseFrom(f, a, boot).bytes[i] == if a <= i < boot then BLANK else f.bytes[i]
      {
        assert EraseFrom(f, a, boot).bytes[i] == if a + P <= i < boot then BLANK else next.bytes[i];
      }
    }
  }

  // ----- the blank check

  /** The least address from `a` to `boot` whose byte is not blank. */
  function FirstNonBlank(bytes: seq<bv8>, a: nat, boot: nat): (r: nat)
    requires a <= boot <= |bytes|
    ensures a <= r <= boot && (r < boot ==> bytes[r] != BLANK)
    ensures forall i :: a <= i < r ==> bytes[i] == BLANK
    decreases boot - a
  {
    if a == boot || bytes[a] != BLANK then a else FirstNonBlank(bytes, a + 1, boot)
  }
}
