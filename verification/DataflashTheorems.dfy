/**
 When a Dataflash write is the write the host asked for: for which page sizes, block addresses and
 block counts the medium, seen as one flat array, ends up with exactly the addressed bytes replaced.
 */
module DataflashTheorems {
  import opened DataflashChip
  import opened DataflashManager
  import opened Words

  ghost predicate RightWrite(P: nat, N: nat, ram: bool, m: Image, a: nat, n: nat, data: seq<bv8>)
    requires Geometry(P, N) && InRange(P, N, a, n) && m.Sized(P, N) && |data| == 512 * n
  {
    FlatSize(P, m.main);
    Flat(WriteResult(P, ram, m, a, n, data, true).main) == Overlay(Flat(m.main), 512 * a, data)
  }

  /** A write of n blocks from block a on is right whatever the chip and the data hold. */
  ghost predicate Faithful(P: nat, N: nat, ram: bool, a: nat, n: nat)
    requires Geometry(P, N) && InRange(P, N, a, n)
  {
    forall m: Image, data: seq<bv8> | m.Sized(P, N) && |data| == 512 * n ::
      RightWrite(P, N, ram, m, a, n, data)
  }

  /**
   The exact condition, in terms of where the write starts in its first page and ends in its last one.
   A page larger than a block must be reached at the start (it is copied first), be filled to its end,
   or be recognised by counting whole blocks as the one that must be copied. Smaller pages are never copied.
   */
  predicate WriteOk(P: nat, a: nat, n: nat)
    requires 0 < P
  {
    var first, end := 512 * a % P, 512 * (a + n) % P;
    if n == 0 then P > 512
    else if P > 512 then first + 512 * n <= P || end == 0 || 512 * CeilBlocks(end) < P
    else first == 0 && end == 0
  }

  /** The RAM variant writes the second buffer's pages from the wrong buffer: one page at most is right. */
  predicate RamWriteOk(P: nat, a: nat, n: nat)
    requires 0 < P
  {
    if n == 0 then P > 512 else 512 * a % P + 512 * n <= P
  }

  // ----- the flat view

  lemma {:induction false} FlatUpdate(P: nat, main: seq<seq<bv8>>, page: nat, x: seq<bv8>)
    requires page < |main| && |x| == P && forall p :: 0 <= p < |main| ==> |main[p]| == P
    ensures Base(P, page) + P <= |Flat(main)|
    ensures Flat(main[page := x]) == Overlay(Flat(main), Base(P, page), x)
  {
    var n := |main| - 1;
    FlatSize(P, main[..n]);
    if page == n {
      assert main[page := x][..n] == main[..n];
    } else {
      assert main[page := x][..n] == main[..n][page := x];
      FlatUpdate(P, main[..n], page, x);
    }
  }

  lemma FlatPage(P: nat, main: seq<seq<bv8>>, page: nat)
    requires page < |main| && forall p :: 0 <= p < |main| ==> |main[p]| == P
    ensures Base(P, page) + P <= |Flat(main)| && Flat(main)[Base(P, page)..Base(P, page) + P] == main[page]
  {
    FlatAt(P, main, page, 0, P);
    assert main[page][0..P] == main[page];
  }

  lemma {:induction false} OverlayInside(flat: seq<bv8>, base: nat, part: seq<bv8>, off: nat, data: seq<bv8>)
    requires base + |part| <= |flat| && flat[base..base + |part|] == part && off + |data| <= |part|
    ensures Overlay(flat, base, Overlay(part, off, data)) == Overlay(flat, base + off, data)
  {
    assert forall i :: base <= i < base + |part| ==> flat[i] == part[i - base];
  }

  /** Replacing part of one page replaces that part of the flat view. */
  lemma {:induction false} FlatOverlay(P: nat, main: seq<seq<bv8>>, page: nat, off: nat, data: seq<bv8>)
    requires page < |main| && off + |data| <= P && forall p :: 0 <= p < |main| ==> |main[p]| == P
    ensures Base(P, page) + P <= |Flat(main)|
    ensures Flat(main[page := Overlay(main[page], off, data)]) == Overlay(Flat(main), Base(P, page) + off, data)
  {
    var flat, base, part := Flat(main), Base(P, page), main[page];
    FlatPage(P, main, page);
    OverlayInside(flat, base, part, off, data);
    var x := Overlay(part, off, data);
    assert |x| == P;
    FlatUpdate(P, main, page, x);
  }

  // ----- right writes

  /** The page buffer already holds the bytes of its page that the write will not replace. */
  predicate Agrees(m: Image, second: bool, page: nat, off: nat, len: nat, done: bool)
    requires page < |m.main| && |m.main[page]| == |m.Buffer(second)|
  {
    forall j :: 0 <= j < |m.main[page]| && (j < off || (done && off + len <= j)) ==>
      m.Buffer(second)[j] == m.main[page][j]
  }

  /** A page that the write fills only in part is copied into its buffer at the page change. */
  predicate TailLoaded(P: nat, off: nat, len: nat)
    requires 0 < P && off < P
    decreases len
  {
    len <= P - off ||
    var rest := len - (P - off);
    if rest <= P then rest == P || LoadsNextPage(P, CeilBlocks(rest)) else TailLoaded(P, 0, rest)
  }

  /** How much of an abandoned write has reached main memory: everything up to the last page change. */
  function Flushed(P: nat, off: nat, len: nat): (r: nat)
    requires 0 < P && off < P
    ensures r <= len && len - r <= P && (r == 0 || r < len)
    decreases len
  {
    if len <= P - off then 0 else P - off + Flushed(P, 0, len - (P - off))
  }

  /** The bytes of the write that main memory has at its end. */
  function Landed(P: nat, off: nat, data: seq<bv8>, done: bool): (r: seq<bv8>)
    requires 0 < P && off < P
    ensures |r| <= |data|
  {
    if done then data else data[..Flushed(P, off, |data|)]
  }

  lemma TakeSplit(data: seq<bv8>, k: nat, f: nat)
    requires k + f <= |data|
    ensures data[..k + f] == data[..k] + data[k..][..f]
  {
  }

  lemma LandedTurns(P: nat, off: nat, data: seq<bv8>, done: bool)
    requires 0 < P && off < P && P - off < |data|
    ensures Landed(P, off, data, done) == data[..P - off] + Landed(P, 0, data[P - off..], done)
  {
    if !done {
      TakeSplit(data, P - off, Flushed(P, 0, |data| - (P - off)));
    }
  }

  lemma LandedLast(P: nat, off: nat, data: seq<bv8>, done: bool)
    requires 0 < P && off < P && |data| <= P - off
    ensures Landed(P, off, data, done) == if done then data else []
  {
  }

  lemma OverlayJoin(flat: seq<bv8>, at: nat, x: seq<bv8>, y: seq<bv8>)
    requires at + |x| + |y| <= |flat|
    ensures Overlay(Overlay(flat, at, x), at + |x|, y) == Overlay(flat, at, x + y)
  {
  }

  lemma JoinLanded(P: nat, flat: seq<bv8>, turned: seq<bv8>, final: seq<bv8>, at: nat, off: nat, data: seq<bv8>,
                   done: bool)
    requires 0 < P && off < P && P - off < |data| && at + |data| <= |flat|
    requires turned == Overlay(flat, at, data[..P - off])
    requires final == Overlay(turned, at + (P - off), Landed(P, 0, data[P - off..], done))
    ensures final == Overlay(flat, at, Landed(P, off, data, done))
  {
    LandedTurns(P, off, data, done);
    OverlayJoin(flat, at, data[..P - off], Landed(P, 0, data[P - off..], done));
  }

  lemma StoredPage(P: nat, m: Image, second: bool, page: nat, off: nat, data: seq<bv8>, done: bool, main: seq<seq<bv8>>)
    requires m.Sized(P, |m.main|) && page < |m.main| && off < P && P - off <= |data|
    requires Agrees(m, second, page, off, |data|, done)
    requires main == m.main[page := Overlay(m.Buffer(second), off, data[..P - off])]
    ensures |Flat(m.main)| == Base(P, |m.main|) && Base(P, page) + P <= |Flat(m.main)|
    ensures Flat(main) == Overlay(Flat(m.main), Base(P, page) + off, data[..P - off])
  {
    FlatSize(P, m.main);
    FlatOverlay(P, m.main, page, off, data[..P - off]);
    assert Overlay(m.Buffer(second), off, data[..P - off]) == Overlay(m.main[page], off, data[..P - off]);
  }

  lemma PageDone(P: nat, m: Image, second: bool, page: nat, off: nat, data: seq<bv8>, done: bool,
                 next: seq<seq<bv8>>, final: seq<seq<bv8>>, at: nat, rest: seq<bv8>, to: nat)
    requires m.Sized(P, |m.main|) && page < |m.main| && 0 < P && off < P && P - off < |data|
    requires at == Base(P, page) + off && at + |data| <= Base(P, |m.main|) == |Flat(next)|
    requires Agrees(m, second, page, off, |data|, done)
    requires next == m.main[page := Overlay(m.Buffer(second), off, data[..P - off])]
    requires rest == data[P - off..] && to == at + (P - off)
    requires Flat(final) == Overlay(Flat(next), to, Landed(P, 0, rest, done))
    ensures |Flat(m.main)| == Base(P, |m.main|) && Flat(final) == Overlay(Flat(m.main), at, Landed(P, off, data, done))
  {
    StoredPage(P, m, second, page, off, data, done, next);
    JoinLanded(P, Flat(m.main), Flat(next), Flat(final), at, off, data, done);
  }

  lemma LastStep(P: nat, m: Image, second: bool, page: nat, off: nat, data: seq<bv8>, owed: nat, done: bool)
    requires m.Sized(P, |m.main|) && page < |m.main| && 0 < P && off < P && off + |data| <= P
    requires Agrees(m, second, page, off, |data|, done)
    ensures |Flat(m.main)| == Base(P, |m.main|) && Base(P, page) + P <= |Flat(m.main)|
    ensures Flat(WritePages(P, false, m, second, page, off, data, owed, done).main)
         == Overlay(Flat(m.main), Base(P, page) + off, Landed(P, off, data, done))
  {
    FlatSize(P, m.main);
    LandedLast(P, off, data, done);
    FlatOverlay(P, m.main, page, off, data);
    if done {
      assert Overlay(m.Buffer(second), off, data) == Overlay(m.main[page], off, data);
    } else {
      assert Overlay(Flat(m.main), Base(P, page) + off, []) == Flat(m.main);
    }
  }

  lemma WriteTurns(P: nat, m: Image, second: bool, page: nat, off: nat, data: seq<bv8>, owed: nat, done: bool)
    requires m.Sized(P, |m.main|) && page + 1 < |m.main| && off < P && P - off < |data|
    ensures WritePages(P, false, m, second, page, off, data, owed, done)
         == WritePages(P, false, NextPage(P, Filled(m, false, second, off, data[..P - off]), second, page,
                                          CeilBlocks(|data| - (P - off) + owed)),
                       !second, page + 1, 0, data[P - off..], owed, done)
  {
  }

  lemma NextStored(P: nat, m: Image, second: bool, page: nat, off: nat, data: seq<bv8>, blocks: nat)
    requires m.Sized(P, |m.main|) && page + 1 < |m.main| && off + |data| <= P
    ensures var next := NextPage(P, Filled(m, false, second, off, data), second, page, blocks);
            next.Sized(P, |m.main|) && next.main == m.main[page := Overlay(m.Buffer(second), off, data)]
  {
  }

  lemma NextAgrees(P: nat, f: Image, second: bool, page: nat, len: nat, owed: nat, done: bool)
    requires f.Sized(P, |f.main|) && page + 1 < |f.main| && 0 < P && 0 < len
    requires done ==>
               owed == 0 && if len <= P then len == P || LoadsNextPage(P, CeilBlocks(len)) else TailLoaded(P, 0, len)
    ensures Agrees(NextPage(P, f, second, page, CeilBlocks(len + owed)), !second, page + 1, 0, len, done)
    ensures done ==> TailLoaded(P, 0, len)
  {
    var next := NextPage(P, f, second, page, CeilBlocks(len + owed));
    if done && len < P {
      assert next.Buffer(!second) == next.main[page + 1];
    }
  }

  /** One page change of a write: the page is stored, and the next buffer is ready for what is left. */
  lemma PageStep(P: nat, m: Image, second: bool, page: nat, off: nat, data: seq<bv8>, owed: nat, done: bool)
    returns (next: Image)
    requires m.Sized(P, |m.main|) && page < |m.main| && 0 < P && off < P && P - off < |data|
    requires Base(P, page) + off + |data| <= Base(P, |m.main|)
    requires Agrees(m, second, page, off, |data|, done)
    requires done ==> owed == 0 && TailLoaded(P, off, |data|)
    ensures page + 1 < |m.main| == |next.main| && next.Sized(P, |m.main|) && Base(P, page + 1) == Base(P, page) + P
    ensures next == NextPage(P, Filled(m, false, second, off, data[..P - off]), second, page,
                             CeilBlocks(|data| - (P - off) + owed))
    ensures next.main == m.main[page := Overlay(m.Buffer(second), off, data[..P - off])]
    ensures Agrees(next, !second, page + 1, 0, |data| - (P - off), done)
    ensures done ==> TailLoaded(P, 0, |data| - (P - off))
  {
    var f, len := Filled(m, false, second, off, data[..P - off]), |data| - (P - off);
    MorePages(P, |m.main|, page, off + |data|);
    next := NextPage(P, f, second, page, CeilBlocks(len + owed));
    NextStored(P, m, second, page, off, data[..P - off], CeilBlocks(len + owed));
    NextAgrees(P, f, second, page, len, owed, done);
  }

  /** The pages behind a page change. */
  lemma {:induction false} NextPagesOverlay(P: nat, m: Image, second: bool, page: nat, data: seq<bv8>,
                                            owed: nat, done: bool, w: Image, at: nat)
    requires m.Sized(P, |m.main|) && page < |m.main| && 0 < P && at == Base(P, page) && at + |data| <= Base(P, |m.main|)
    requires Agrees(m, second, page, 0, |data|, done)
    requires done ==> owed == 0 && TailLoaded(P, 0, |data|)
    requires w == WritePages(P, false, m, second, page, 0, data, owed, done)
    ensures |Flat(m.main)| == Base(P, |m.main|)
    ensures Flat(w.main) == Overlay(Flat(m.main), at, Landed(P, 0, data, done))
    decreases |data|, 2
  {
    PagesOverlay(P, m, second, page, 0, data, owed, done, w, at);
  }

  lemma {:induction false} MorePagesOverlay(P: nat, m: Image, second: bool, page: nat, off: nat, data: seq<bv8>,
                                          owed: nat, done: bool, w: Image, at: nat)
    requires at == Base(P, page) + off
    requires m.Sized(P, |m.main|) && page < |m.main| && 0 < P && off < P && P - off < |data|
    requires Base(P, page) + off + |data| <= Base(P, |m.main|)
    requires Agrees(m, second, page, off, |data|, done)
    requires done ==> owed == 0 && TailLoaded(P, off, |data|)
    requires w == WritePages(P, false, m, second, page, off, data, owed, done)
    ensures |Flat(m.main)| == Base(P, |m.main|)
    ensures Flat(w.main) == Overlay(Flat(m.main), at, Landed(P, off, data, done))
    decreases |data|, 0
  {
    var next := PageStep(P, m, second, page, off, data, owed, done);
    var rest, to := data[P - off..], at + (P - off);
    WriteTurns(P, m, second, page, off, data, owed, done);
    assert |rest| == |data| - (P - off);
    NextPagesOverlay(P, next, !second, page + 1, rest, owed, done, w, to);
    PageDone(P, m, second, page, off, data, done, next.main, w.main, at, rest, to);
  }

  /** The pages of a write that starts in page `page`: what has landed is laid over the medium. */
  lemma {:induction false} PagesOverlay(P: nat, m: Image, second: bool, page: nat, off: nat, data: seq<bv8>,
                                       owed: nat, done: bool, w: Image, at: nat)
    requires at == Base(P, page) + off
    requires m.Sized(P, |m.main|) && page < |m.main| && 0 < P && off < P
    requires Base(P, page) + off + |data| <= Base(P, |m.main|)
    requires Agrees(m, second, page, off, |data|, done)
    requires done ==> owed == 0 && TailLoaded(P, off, |data|)
    requires w == WritePages(P, false, m, second, page, off, data, owed, done)
    ensures |Flat(m.main)| == Base(P, |m.main|)
    ensures Flat(w.main) == Overlay(Flat(m.main), at, Landed(P, off, data, done))
    decreases |data|, 1
  {
    if |data| <= P - off {
      LastStep(P, m, second, page, off, data, owed, done);
    } else {
      MorePagesOverlay(P, m, second, page, off, data, owed, done, w, at);
    }
  }

  // ----- from page geometry to the condition

  lemma ModShift(P: nat, x: nat)
    requires 0 < P
    ensures (P + x) % P == x % P
  {
    DivMod(P, P + x, x / P + 1, x % P);
  }

  lemma {:induction false} BaseMod(P: nat, page: nat, x: nat)
    requires 0 < P
    ensures (Base(P, page) + x) % P == x % P
  {
    if page > 0 {
      BaseMod(P, page - 1, P + x);
      ModShift(P, x);
    }
  }

  /** The page-by-page condition depends only on where the write ends. */
  lemma {:induction false} TailLoadedIff(P: nat, off: nat, len: nat)
    requires 0 < P && off < P && P - off < len
    ensures TailLoaded(P, off, len) <==>
              var end := (off + len) % P; end == 0 || LoadsNextPage(P, CeilBlocks(end))
    decreases len
  {
    var rest := len - (P - off);
    assert off + len == P + rest;
    ModShift(P, rest);
    if rest < P {
      DivMod(P, rest, 0, rest);
    } else if rest == P {
      DivMod(P, P, 1, 0);
    } else {
      TailLoadedIff(P, 0, rest);
    }
  }

  /** On a page that will be filled only in part, the 16-bit test is exact. */
  lemma LoadTestExact(P: nat, end: nat)
    requires PageSizeOk(P) && end < P
    ensures LoadsNextPage(P, CeilBlocks(end)) <==> P > 512 && 512 * CeilBlocks(end) < P
  {
    assert CeilBlocks(end) <= 8;
  }

  /**
   The product in the test wraps in 16 bits, but that only ever copies a page that the write is going to
   fill: a page the test should have copied is copied, and a copy too many means whole pages to come.
   */
  lemma WrappingOnlyAddsLoads(P: nat, blocks: nat)
    requires PageSizeOk(P) && P > 512
    ensures 512 * blocks < P ==> LoadsNextPage(P, blocks)
    ensures LoadsNextPage(P, blocks) && !(512 * blocks < P) ==> 512 * (blocks - 1) >= P
  {
    if LoadsNextPage(P, blocks) && blocks * 32 < 0x1_0000 {
      assert 512 * blocks < P;
    }
  }

  /** Where a write starts, and whether its last page is safe, in the terms of `WriteOk`. */
  lemma WriteStarts(P: nat, N: nat, a: nat, n: nat)
    requires Geometry(P, N) && InRange(P, N, a, n)
    ensures var (page, off) := StartPlace(P, N, a, n); off == 512 * a % P && page < N
    ensures P - 512 * a % P < 512 * n ==>
              (TailLoaded(P, 512 * a % P, 512 * n) <==>
               var end := 512 * (a + n) % P; end == 0 || (P > 512 && 512 * CeilBlocks(end) < P))
  {
    var (page, off) := StartPlace(P, N, a, n);
    if P - off < 512 * n {
      TailLoadedIff(P, off, 512 * n);
      BaseMod(P, page, off + 512 * n);
      assert Base(P, page) + (off + 512 * n) == 512 * (a + n);
      LoadTestExact(P, 512 * (a + n) % P);
    }
  }

  /** A page of at most a block, entered at its start, is filled by the first block. */
  lemma AlignedSmall(P: nat, n: nat)
    requires PageSizeOk(P)
    ensures P <= 512 && n > 0 ==> P <= 512 * n
  {
  }

  /** Under the condition, every write is right. */
  lemma WriteRight(P: nat, N: nat, m: Image, a: nat, n: nat, data: seq<bv8>)
    requires Geometry(P, N) && InRange(P, N, a, n) && m.Sized(P, N) && |data| == 512 * n
    requires WriteOk(P, a, n)
    ensures RightWrite(P, N, false, m, a, n, data)
  {
    WriteStarts(P, N, a, n);
    var (page, off) := StartPlace(P, N, a, n);
    AlignedSmall(P, n);
    PagesOverlay(P, Prepared(P, m, page), false, page, off, data, 0, true,
                 WriteResult(P, false, m, a, n, data, true), 512 * a);
  }

  /**
   Reading any blocks back after a right write gives, byte by byte, the data written where the two
   ranges meet and the old medium everywhere else.
   */
  lemma ReadBack(P: nat, N: nat, m: Image, a: nat, n: nat, data: seq<bv8>, b: nat, k: nat)
    requires Geometry(P, N) && InRange(P, N, a, n) && m.Sized(P, N) && |data| == 512 * n
    requires WriteOk(P, a, n) && InRange(P, N, b, k)
    ensures var after := Flat(WriteResult(P, false, m, a, n, data, true).main);
            |after| == |Flat(m.main)| == Base(P, N) &&
            forall i :: 512 * b <= i < 512 * (b + k) ==>
              after[i] == if 512 * a <= i < 512 * (a + n) then data[i - 512 * a] else Flat(m.main)[i]
    ensures var after := Flat(WriteResult(P, false, m, a, n, data, true).main);
            after[512 * a..512 * (a + n)] == data
  {
    WriteRight(P, N, m, a, n, data);
    FlatSize(P, m.main);
  }

  /** The condition for an abandoned write: its first page was copied, is entered at its start, or is not left. */
  predicate AbandonOk(P: nat, a: nat, len: nat)
    requires 0 < P
  {
    P > 512 || 512 * a % P == 0 || 512 * a % P + len <= P
  }

  /** An abandoned write of which k bytes, at most a page short of what was sent, are on the medium and nothing else. */
  ghost predicate Prefixed(P: nat, N: nat, m: Image, a: nat, n: nat, data: seq<bv8>, k: nat)
    requires Geometry(P, N) && InRange(P, N, a, n) && m.Sized(P, N) && |data| <= 512 * n
  {
    FlatSize(P, m.main);
    && k <= |data| <= k + P
    && Flat(WriteResult(P, false, m, a, n, data, false).main) == Overlay(Flat(m.main), 512 * a, data[..k])
  }

  ghost predicate KeepsPrefix(P: nat, N: nat, m: Image, a: nat, n: nat, data: seq<bv8>)
    requires Geometry(P, N) && InRange(P, N, a, n) && m.Sized(P, N) && |data| <= 512 * n
  {
    exists k: nat :: Prefixed(P, N, m, a, n, data, k)
  }

  /** Under the condition an abandoned write leaves a prefix of the data: the pages turned so far. */
  lemma AbandonedWrite(P: nat, N: nat, m: Image, a: nat, n: nat, data: seq<bv8>) returns (k: nat)
    requires Geometry(P, N) && InRange(P, N, a, n) && m.Sized(P, N) && |data| <= 512 * n
    requires AbandonOk(P, a, |data|)
    ensures Prefixed(P, N, m, a, n, data, k)
  {
    WriteStarts(P, N, a, n);
    var (page, off) := StartPlace(P, N, a, n);
    FlatSize(P, m.main);
    if off + |data| <= P {
      k := 0;
      assert Overlay(Flat(m.main), 512 * a, data[..0]) == Flat(m.main);
    } else {
      PagesOverlay(P, Prepared(P, m, page), false, page, off, data, 512 * n - |data|, false,
                   WriteResult(P, false, m, a, n, data, false), 512 * a);
      k := Flushed(P, off, |data|);
    }
  }

  // ----- wrong writes

  /** Pages before the current one are never touched again. */
  lemma {:induction false} Untouched(P: nat, ram: bool, m: Image, second: bool, page: nat, off: nat,
                                     data: seq<bv8>, owed: nat, done: bool, p: nat)
    requires m.Sized(P, |m.main|) && p < page < |m.main| && off <= P
    ensures WritePages(P, ram, m, second, page, off, data, owed, done).main[p] == m.main[p]
    decreases |m.main| - page
  {
    var room := P - off;
    if |data| > room && page + 1 < |m.main| {
      var f := Filled(m, ram, second, off, data[..room]);
      var next := NextPage(P, f, second, page, CeilBlocks(|data| - room + owed));
      Untouched(P, ram, next, !second, page + 1, 0, data[room..], owed, done, p);
    }
  }

  function Const(n: nat, b: bv8): (r: seq<bv8>)
    ensures |r| == n && forall i :: 0 <= i < n ==> r[i] == b
  {
    seq(n, _ => b)
  }

  /**
   A last page that is filled in part and not copied gets its final byte from whatever the buffer held:
   here 1, as the data are, although the medium held 0.
   */
  lemma {:induction false} StaleTail(P: nat, m: Image, second: bool, page: nat, off: nat, data: seq<bv8>)
    returns (p: nat)
    requires m.Sized(P, |m.main|) && page < |m.main| && 0 < P && off < P && P - off < |data|
    requires Base(P, page) + off + |data| <= Base(P, |m.main|)
    requires !TailLoaded(P, off, |data|)
    requires m.Buffer(!second)[P - 1] == 1 && forall i :: 0 <= i < |data| ==> data[i] == 1
    ensures page < p < |m.main| && Base(P, page) + off + |data| <= Base(P, p) + P - 1
    ensures WritePages(P, false, m, second, page, off, data, 0, true).main[p][P - 1] == 1
    decreases |data|
  {
    var room := P - off;
    MorePages(P, |m.main|, page, off + |data|);
    var f := Filled(m, false, second, off, data[..room]);
    var next := NextPage(P, f, second, page, CeilBlocks(|data| - room));
    var rest := data[room..];
    WriteTurns(P, m, second, page, off, data, 0, true);
    assert f.Buffer(second)[P - 1] == 1;
    if |rest| <= P {
      p := page + 1;
      assert next.Buffer(!second)[P - 1] == 1;
    } else {
      p := StaleTail(P, next, !second, page + 1, 0, rest);
    }
  }

  /** A page stored from a buffer that was filled from `off` on keeps the buffer's first byte. */
  lemma HeadKept(P: nat, m: Image, page: nat, off: nat, data: seq<bv8>, blocks: nat)
    requires m.Sized(P, |m.main|) && page < |m.main| && 0 < off && off + |data| <= P
    ensures var f := Filled(m, false, false, off, data);
            && Committed(f, false, page).main[page][0] == m.buffer1[0]
            && (page + 1 < |m.main| ==> NextPage(P, f, false, page, blocks).main[page][0] == m.buffer1[0])
  {
  }

  /** A small page entered in the middle is not copied, so once it is stored its first byte comes from the buffer. */
  lemma StaleHead(P: nat, m: Image, page: nat, off: nat, data: seq<bv8>, owed: nat, done: bool)
    requires m.Sized(P, |m.main|) && page < |m.main| && 0 < off < P && (done || P - off < |data|)
    requires Base(P, page) + off + |data| <= Base(P, |m.main|)
    ensures WritePages(P, false, m, false, page, off, data, owed, done).main[page][0] == m.buffer1[0]
  {
    var room := P - off;
    if |data| <= room {
      HeadKept(P, m, page, off, data, 0);
    } else {
      var blocks := CeilBlocks(|data| - room + owed);
      MorePages(P, |m.main|, page, off + |data|);
      HeadKept(P, m, page, off, data[..room], blocks);
      WriteTurns(P, m, false, page, off, data, owed, done);
      Untouched(P, false, NextPage(P, Filled(m, false, false, off, data[..room]), false, page, blocks), true, page + 1,
                0, data[room..], owed, done, page);
    }
  }

  lemma FlatByte(P: nat, main: seq<seq<bv8>>, p: nat, j: nat)
    requires p < |main| && j < P && forall q :: 0 <= q < |main| ==> |main[q]| == P
    ensures Base(P, p) + j < |Flat(main)| && Flat(main)[Base(P, p) + j] == main[p][j]
  {
    FlatPage(P, main, p);
    assert Flat(main)[Base(P, p)..Base(P, p) + P][j] == main[p][j];
  }

  /** One byte that is not what the host asked for. */
  lemma OverlayAt(flat: seq<bv8>, at: nat, data: seq<bv8>, i: nat)
    requires at + |data| <= |flat| && i < |flat|
    ensures Overlay(flat, at, data)[i] == if at <= i < at + |data| then data[i - at] else flat[i]
  {
  }

  lemma WrongByte(P: nat, N: nat, ram: bool, m: Image, a: nat, n: nat, data: seq<bv8>, p: nat, j: nat)
    requires Geometry(P, N) && InRange(P, N, a, n) && m.Sized(P, N) && |data| == 512 * n && p < N && j < P
    requires var i, now := Base(P, p) + j, WriteResult(P, ram, m, a, n, data, true).main[p][j];
             if 512 * a <= i < 512 * (a + n) then now != data[i - 512 * a] else now != m.main[p][j]
    ensures !RightWrite(P, N, ram, m, a, n, data)
  {
    var i, w := Base(P, p) + j, WriteResult(P, ram, m, a, n, data, true);
    FlatSize(P, m.main);
    FlatByte(P, m.main, p, j);
    FlatByte(P, w.main, p, j);
    OverlayAt(Flat(m.main), 512 * a, data, i);
  }

  /** A medium of zeros, buffers full of `b`, and data of ones. */
  function Blank(P: nat, N: nat, b: bv8): (m: Image)
    ensures m.Sized(P, N)
    ensures forall p, j :: 0 <= p < N && 0 <= j < P ==> m.main[p][j] == 0
    ensures forall j :: 0 <= j < P ==> m.buffer1[j] == b && m.buffer2[j] == b
  {
    Image(seq(N, _ => Const(P, 0)), Const(P, b), Const(P, b))
  }

  /** A small page written from its start to its end, and no further, ends on a page boundary. */
  lemma OneAlignedPage(P: nat, a: nat, n: nat)
    requires PageSizeOk(P) && P <= 512 && 512 * a % P == 0 && 512 * n <= P
    ensures n == 0 || 512 * (a + n) % P == 0
  {
  }

  lemma WrongTail(P: nat, N: nat, a: nat, n: nat)
    requires Geometry(P, N) && InRange(P, N, a, n) && !WriteOk(P, a, n) && n > 0 && (P <= 512 ==> 512 * a % P == 0)
    ensures var off := StartPlace(P, N, a, n).1; P - off < 512 * n && !TailLoaded(P, off, 512 * n)
  {
    WriteStarts(P, N, a, n);
    if P <= 512 && 512 * n <= P {
      OneAlignedPage(P, a, n);
    }
  }

  lemma WriteWrong(P: nat, N: nat, a: nat, n: nat)
    requires Geometry(P, N) && InRange(P, N, a, n) && !WriteOk(P, a, n)
    ensures !RightWrite(P, N, false, Blank(P, N, 1), a, n, Const(512 * n, 1))
  {
    var m, data := Blank(P, N, 1), Const(512 * n, 1);
    var (page, off) := StartPlace(P, N, a, n);
    if n == 0 {
      LastPage(P, false, m, false, page, off, 0, true);
      WrongByte(P, N, false, m, a, n, data, page, 0);
    } else if P <= 512 && off > 0 {
      StaleHead(P, m, page, off, data, 0, true);
      WrongByte(P, N, false, m, a, n, data, page, 0);
    } else {
      WrongTail(P, N, a, n);
      var p := StaleTail(P, Prepared(P, m, page), false, page, off, data);
      WrongByte(P, N, false, m, a, n, data, p, P - 1);
    }
  }

  /** A write is right for every content of chip and data exactly under `WriteOk`. */
  lemma WriteFaithfulIff(P: nat, N: nat, a: nat, n: nat)
    requires Geometry(P, N) && InRange(P, N, a, n)
    ensures Faithful(P, N, false, a, n) <==> WriteOk(P, a, n)
  {
    if WriteOk(P, a, n) {
      forall m: Image, data: seq<bv8> | m.Sized(P, N) && |data| == 512 * n
        ensures RightWrite(P, N, false, m, a, n, data)
      {
        WriteRight(P, N, m, a, n, data);
      }
    } else {
      WriteWrong(P, N, a, n);
    }
  }

  lemma NotOverlay(P: nat, before: seq<seq<bv8>>, after: seq<seq<bv8>>, at: nat, data: seq<bv8>, page: nat)
    requires P > 0 && |before| == |after| && page < |before| && Base(P, page) < at && at + |data| <= Base(P, |before|)
    requires forall q :: 0 <= q < |before| ==> |before[q]| == |after[q]| == P
    requires before[page][0] != after[page][0]
    ensures |Flat(before)| == Base(P, |before|) && Flat(after) != Overlay(Flat(before), at, data)
  {
    FlatSize(P, before);
    FlatByte(P, before, page, 0);
    FlatByte(P, after, page, 0);
    OverlayAt(Flat(before), at, data, Base(P, page));
  }

  /** Otherwise the byte in front of the first page's data is lost with the first page change. */
  lemma AbandonedWrong(P: nat, N: nat, a: nat, n: nat, data: seq<bv8>, k: nat)
    requires Geometry(P, N) && InRange(P, N, a, n) && |data| <= 512 * n && !AbandonOk(P, a, |data|)
    ensures !Prefixed(P, N, Blank(P, N, 1), a, n, data, k)
  {
    WriteStarts(P, N, a, n);
    var (page, off) := StartPlace(P, N, a, n);
    var m, w := Blank(P, N, 1), WriteResult(P, false, Blank(P, N, 1), a, n, data, false);
    StaleHead(P, m, page, off, data, 512 * n - |data|, false);
    if k <= |data| {
      NotOverlay(P, m.main, w.main, 512 * a, data[..k], page);
    }
  }

  lemma AbandonedLoses(P: nat, N: nat, a: nat, n: nat, data: seq<bv8>)
    requires Geometry(P, N) && InRange(P, N, a, n) && |data| <= 512 * n && !AbandonOk(P, a, |data|)
    ensures !KeepsPrefix(P, N, Blank(P, N, 1), a, n, data)
  {
    forall k: nat ensures !Prefixed(P, N, Blank(P, N, 1), a, n, data, k) {
      AbandonedWrong(P, N, a, n, data, k);
    }
  }

  /** When the host leaves after `len` bytes, every content keeps to a prefix exactly under the condition. */
  lemma AbandonedExact(P: nat, N: nat, a: nat, n: nat, len: nat)
    requires Geometry(P, N) && InRange(P, N, a, n) && len <= 512 * n
    ensures (forall m: Image, data: seq<bv8> | m.Sized(P, N) && |data| == len :: KeepsPrefix(P, N, m, a, n, data))
            <==> AbandonOk(P, a, len)
  {
    if AbandonOk(P, a, len) {
      forall m: Image, data: seq<bv8> | m.Sized(P, N) && |data| == len ensures KeepsPrefix(P, N, m, a, n, data) {
        var k := AbandonedWrite(P, N, m, a, n, data);
      }
    } else {
      AbandonedLoses(P, N, a, n, Const(len, 1));
    }
  }

  /** With no page change, the two writers do the same. */
  lemma RamOnePage(P: nat, m: Image, page: nat, off: nat, data: seq<bv8>)
    requires m.Sized(P, |m.main|) && page < |m.main| && off + |data| <= P
    ensures WritePages(P, true, m, false, page, off, data, 0, true) ==
            WritePages(P, false, m, false, page, off, data, 0, true)
  {
  }

  lemma RamCommit(P: nat, m: Image, page: nat, data: seq<bv8>)
    requires m.Sized(P, |m.main|) && page < |m.main| && 0 < P && data != [] && m.buffer2[0] == 0
    ensures WritePages(P, true, m, true, page, 0, data, 0, true).main[page][0] == 0
  {
    if |data| > P && page + 1 < |m.main| {
      var f := Filled(m, true, true, 0, data[..P]);
      var next := NextPage(P, f, true, page, CeilBlocks(|data| - P));
      Untouched(P, true, next, false, page + 1, 0, data[P..], 0, true, page);
    }
  }

  /** The RAM writer commits its second page from a buffer that no data byte was sent to. */
  lemma RamSecondPage(P: nat, m: Image, page: nat, off: nat, data: seq<bv8>)
    requires m.Sized(P, |m.main|) && page + 1 < |m.main| && 0 < P && off < P && P - off < |data|
    requires m.buffer2[0] == 0 && m.main[page + 1][0] == 0
    ensures WritePages(P, true, m, false, page, off, data, 0, true).main[page + 1][0] == 0
  {
    var f := Filled(m, true, false, off, data[..P - off]);
    var rest := data[P - off..];
    var next := NextPage(P, f, false, page, CeilBlocks(|rest|));
    assert next.buffer2[0] == 0;
    RamCommit(P, next, page + 1, rest);
  }

  lemma OnePageOk(P: nat, a: nat, n: nat)
    requires PageSizeOk(P) && RamWriteOk(P, a, n)
    ensures WriteOk(P, a, n)
  {
    if n > 0 && P <= 512 {
      assert P == 512;
    }
  }

  lemma RamWriteFaithfulIff(P: nat, N: nat, a: nat, n: nat)
    requires Geometry(P, N) && InRange(P, N, a, n)
    ensures Faithful(P, N, true, a, n) <==> RamWriteOk(P, a, n)
  {
    var (page, off) := StartPlace(P, N, a, n);
    WriteStarts(P, N, a, n);
    if RamWriteOk(P, a, n) {
      forall m: Image, data: seq<bv8> | m.Sized(P, N) && |data| == 512 * n
        ensures RightWrite(P, N, true, m, a, n, data)
      {
        RamOnePage(P, Prepared(P, m, page), page, off, data);
        OnePageOk(P, a, n);
        WriteRight(P, N, m, a, n, data);
      }
    } else if n == 0 {
      var m := Blank(P, N, 1);
      LastPage(P, true, m, false, page, off, 0, true);
      WrongByte(P, N, true, m, a, n, [], page, 0);
    } else {
      var m, data := Blank(P, N, 0), Const(512 * n, 1);
      MorePages(P, N, page, off + 512 * n);
      RamSecondPage(P, Prepared(P, m, page), page, off, data);
      WrongByte(P, N, true, m, a, n, data, page + 1, 0);
    }
  }

  lemma MultipleOf(P: nat, k: nat)
    requires 0 < P
    ensures k * P % P == 0
  {
    DivMod(P, k * P, k, 0);
  }

  /** What a multiple of `unit` leaves modulo a multiple of `unit` is one as well. */
  lemma RemainderUnit(unit: nat, x: nat, y: nat) returns (k: nat)
    requires 0 < unit && 0 < y
    ensures unit * y > 0 && unit * x % (unit * y) == unit * k && k < y
  {
    assert unit * x == (x / y) * (unit * y) + unit * (x % y);
    assert unit * (x % y) < unit * y;
    DivMod(unit * y, unit * x, x / y, unit * (x % y));
    k := x % y;
  }

  // ----- page sizes

  /** The bytes of a page from its last block boundary on: the whole page if that is no more than a block. */
  function LastPart(P: nat): (r: nat)
    requires 0 < P
    ensures 0 < r <= 512 && r <= P
  {
    (P - 1) % 512 + 1
  }

  /** The block boundaries inside a page, its start not counted. */
  function InnerBlocks(P: nat): (q: nat)
    requires 0 < P
    ensures P == 512 * q + LastPart(P)
  {
    (P - 1) / 512
  }

  lemma SmallRemainder(x: nat, P: nat)
    ensures x < P ==> x % P == x
  {
  }

  lemma CeilBelow(end: nat, q: nat)
    requires end <= 512 * q
    ensures 512 * CeilBlocks(end) <= 512 * q
  {
  }

  /** Multiples of r lie no closer than r. */
  lemma MultiplesApart(r: nat, k: nat, l: nat)
    ensures k * r <= l * r || k * r >= l * r + r
  {
    Monotone(r, l, k);
    Monotone(r, k, l);
  }

  /** If the last part divides a block, no write can end inside it. */
  lemma PageSizeGood(P: nat, a: nat, n: nat)
    requires 0 < P && 512 % LastPart(P) == 0 && n > 0
    ensures WriteOk(P, a, n)
  {
    var r, q := LastPart(P), InnerBlocks(P);
    var s := 512 / r;
    assert 512 == r * s;
    assert P == r * (s * q + 1);
    var k := RemainderUnit(r, s * (a + n), s * q + 1);
    assert r * (s * (a + n)) == 512 * (a + n);
    var end := 512 * (a + n) % P;
    assert end == r * k;
    if P > 512 {
      assert 512 * q == (s * q) * r && end == k * r;
      MultiplesApart(r, k, s * q);
      CeilBelow(end, q);
    } else {
      assert q == 0 && P == r;
      MultipleOf(P, s * a);
      MultipleOf(P, s * (a + n));
      assert (s * a) * P == 512 * a && (s * (a + n)) * P == 512 * (a + n);
    }
  }

  /** Otherwise a write of this many blocks from block 0 on ends inside it. */
  function BadCount(P: nat): (n: nat)
    requires 0 < P
    ensures n > 0
  {
    InnerBlocks(P) * (512 / LastPart(P)) + InnerBlocks(P) + 1
  }

  lemma BadCountEnds(P: nat)
    requires 0 < P && 512 % LastPart(P) != 0
    ensures var j, o := 512 / LastPart(P), 512 % LastPart(P);
            && 512 * BadCount(P) == j * P + (512 * InnerBlocks(P) + o)
            && 512 * BadCount(P) % P == 512 * InnerBlocks(P) + o && 0 < o < LastPart(P) && 0 < j
  {
    var r, q := LastPart(P), InnerBlocks(P);
    var j, o := 512 / r, 512 % r;
    assert 512 == j * r + o;
    assert j * P == 512 * (j * q) + j * r;
    assert 512 * BadCount(P) == 512 * (q * j) + 512 * q + 512;
    DivMod(P, 512 * BadCount(P), j, 512 * q + o);
  }

  /** That write fills at least one page and ends in a later one. */
  lemma BadCountSpans(P: nat)
    requires 0 < P && 512 % LastPart(P) != 0
    ensures P < 512 * BadCount(P) < (512 / LastPart(P) + 1) * P
  {
    var j := 512 / LastPart(P);
    BadCountEnds(P);
    Monotone(P, 0, j);
    assert P * j == j * P && (j + 1) * P == j * P + P;
  }

  lemma EndsInside(P: nat, n: nat, end: nat)
    requires 0 < P < 512 * n && end == 512 * n % P && end != 0 && 512 * CeilBlocks(end) >= P
    ensures !WriteOk(P, 0, n)
  {
    SmallRemainder(0, P);
  }

  lemma CeilAbove(q: nat, o: nat)
    requires 0 < o <= 512
    ensures CeilBlocks(512 * q + o) == q + 1
  {
  }

  lemma PageSizeBad(P: nat)
    requires PageSizeOk(P) && 512 % LastPart(P) != 0
    ensures !WriteOk(P, 0, BadCount(P))
  {
    BadCountEnds(P);
    BadCountSpans(P);
    CeilAbove(InnerBlocks(P), 512 % LastPart(P));
    EndsInside(P, BadCount(P), 512 * InnerBlocks(P) + 512 % LastPart(P));
  }

  /** The page sizes for which every write meets the condition. */
  lemma PageSizesExact(P: nat)
    requires PageSizeOk(P)
    ensures (forall a, n :: n > 0 ==> WriteOk(P, a, n)) <==> 512 % LastPart(P) == 0
  {
    if 512 % LastPart(P) == 0 {
      forall a: nat, n: nat | n > 0 ensures WriteOk(P, a, n) {
        PageSizeGood(P, a, n);
      }
    } else {
      PageSizeBad(P);
    }
  }

  lemma BadCountSmall(P: nat)
    requires PageSizeOk(P)
    ensures BadCount(P) < 0x1_0000
  {
    var j, q := 512 / LastPart(P), InnerBlocks(P);
    assert q < 8 && j <= 512;
    Monotone(j, q, 8);
    assert j * q == q * j;
  }

  lemma BadCountFits(P: nat, N: nat)
    requires PageSizeOk(P) && 512 % LastPart(P) != 0 && N > 512 / LastPart(P)
    ensures 512 * BadCount(P) <= Base(P, N) && BadCount(P) < 0x1_0000
  {
    BadCountSmall(P);
    BadCountSpans(P);
    BaseProduct(P, 512 / LastPart(P) + 1);
    BaseBelow(P, 512 / LastPart(P) + 1, N);
  }

  /** On a page size that does not meet it, this write loses data on every medium with room for it. */
  lemma BadPageSizes(P: nat, N: nat)
    requires Geometry(P, N) && 512 % LastPart(P) != 0 && N > 512 / LastPart(P)
    ensures InRange(P, N, 0, BadCount(P)) && !Faithful(P, N, false, 0, BadCount(P))
  {
    BadCountFits(P, N);
    PageSizeBad(P);
    WriteFaithfulIff(P, N, 0, BadCount(P));
  }

  /** Pages that divide a block, pages of whole blocks, and among others those of 528 and 1056 bytes. */
  lemma GoodPageSizes(P: nat)
    requires PageSizeOk(P) && (512 % P == 0 || P % 512 == 0 || P == 528 || P == 1056)
    ensures forall a, n :: n > 0 ==> WriteOk(P, a, n)
  {
    SmallRemainder(512, P);
    assert LastPart(528) == 16 && LastPart(1056) == 32;
    assert 512 % P == 0 ==> LastPart(P) == P;
    assert P % 512 == 0 ==> LastPart(P) == 512;
    PageSizesExact(P);
  }

  /** Pages of 48 and of 1008 bytes do go wrong: one block, and three. */
  lemma WrongPageSizes(N: nat)
    requires 10 < N <= 0x1_0000
    ensures Geometry(48, N) && InRange(48, N, 0, 1) && !Faithful(48, N, false, 0, 1)
    ensures Geometry(1008, N) && InRange(1008, N, 0, 3) && !Faithful(1008, N, false, 0, 3)
  {
    BaseProduct(48, N);
    BaseProduct(1008, N);
    assert LastPart(48) == 48 && InnerBlocks(48) == 0 && LastPart(1008) == 496 && InnerBlocks(1008) == 1;
    BadPageSizes(48, N);
    BadPageSizes(1008, N);
  }
}
