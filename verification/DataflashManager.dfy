/**
 Block transfers between a host and the Dataflash medium.

 Blocks are always 512 bytes; a page is any multiple of 16 bytes whose sixteenth fits the 8-bit page
 counter. The page-level functions below say what a transfer leaves on the chip for every such page
 size; DataflashTheorems says when that is what the host asked for.
 */
module DataflashManager {
  import opened DataflashChip
  import opened Words

  /** The page sizes for which the 8-bit count of 16-byte chunks can reach the end of a page. */
  predicate PageSizeOk(P: nat) {
    P % 16 == 0 && 0 < P && P / 16 <= 255
  }

  /** A medium whose page numbers fit 16 bits and whose byte addresses fit 32 bits. */
  predicate Geometry(P: nat, N: nat) {
    PageSizeOk(P) && N <= 0x1_0000 && Base(P, N) <= 0x1_0000_0000
  }

  /** Blocks a, a+1, .., a+n-1 lie on the medium, and block a starts on it even if n is 0. */
  predicate InRange(P: nat, N: nat, a: nat, n: nat) {
    n < 0x1_0000 && 512 * a < Base(P, N) && 512 * (a + n) <= Base(P, N)
  }

  lemma RangeEnd(P: nat, N: nat, a: nat, n: nat)
    requires InRange(P, N, a, n)
    ensures 512 * a + 512 * n <= Base(P, N)
  {
  }

  // ----- what a write leaves on the chip, page by page

  function CeilBlocks(bytes: nat): (blocks: nat) {
    (bytes + 511) / 512
  }

  /** The test made at a page change: less than one page of blocks to go, in 16-bit arithmetic. */
  predicate LoadsNextPage(P: nat, totalBlocks: nat) {
    P > 512 && U16(totalBlocks * 32) < P / 16
  }

  /** The buffer that data bytes go to: the RAM variant never leaves the first one. */
  predicate TargetsSecond(ram: bool, second: bool) {
    second && !ram
  }

  function Filled(m: Image, ram: bool, second: bool, off: nat, data: seq<bv8>): (r: Image)
    requires off + |data| <= |m.Buffer(TargetsSecond(ram, second))|
  {
    var t := TargetsSecond(ram, second);
    m.WithBuffer(t, Overlay(m.Buffer(t), off, data))
  }

  /** The image after the page change from `page`, with `blocks` blocks counted as remaining. */
  function NextPage(P: nat, m: Image, second: bool, page: nat, blocks: nat): (r: Image)
    requires page + 1 < |m.main|
  {
    var c := Committed(m, second, page);
    if LoadsNextPage(P, blocks) then Loaded(c, !second, page + 1) else c
  }

  /**
   The image once `data` has been written from offset `off` of `page` on, with `owed` more bytes
   announced by the host but never sent. The last page is committed only if `done`. Beyond the last
   page no chip is selected, so nothing more is stored.
   */
  function WritePages(P: nat, ram: bool, m: Image, second: bool, page: nat, off: nat,
                      data: seq<bv8>, owed: nat, done: bool): (r: Image)
    requires m.Sized(P, |m.main|) && page < |m.main| && off <= P
    ensures r.Sized(P, |m.main|)
    decreases |m.main| - page
  {
    var room := P - off;
    if |data| <= room then
      var f := Filled(m, ram, second, off, data);
      if done then Committed(f, second, page) else f
    else
      var f := Filled(m, ram, second, off, data[..room]);
      if page + 1 == |m.main| then Committed(f, second, page)
      else
        var next := NextPage(P, f, second, page, CeilBlocks(|data| - room + owed));
        WritePages(P, ram, next, !second, page + 1, 0, data[room..], owed, done)
  }

  /** Before the first byte, pages larger than a block are copied into the first buffer. */
  function Prepared(P: nat, m: Image, page: nat): (r: Image)
    requires page < |m.main|
  {
    if P > 512 then Loaded(m, false, page) else m
  }

  lemma PlaceOn(P: nat, N: nat, page: nat, off: nat)
    requires P * page + off < Base(P, N)
    ensures page < N && Base(P, page) + off == P * page + off
  {
    BaseProduct(P, N);
    BaseProduct(P, page);
    if page > N {
      Monotone(P, N, page);
    }
  }

  /** Where block a starts: a page that exists, and an offset in it. */
  lemma StartOf(P: nat, N: nat, a: nat, n: nat)
    requires 0 < P && InRange(P, N, a, n)
    ensures 512 * a / P < N && Base(P, 512 * a / P) + 512 * a % P == 512 * a
  {
    assert 512 * a == P * (512 * a / P) + 512 * a % P;
    PlaceOn(P, N, 512 * a / P, 512 * a % P);
  }

  lemma MorePages(P: nat, N: nat, page: nat, len: nat)
    requires page < N && P < len && Base(P, page) + len <= Base(P, N)
    ensures page + 1 < N && Base(P, page + 1) == Base(P, page) + P
  {
  }

  /** The page and the offset in it at which block a starts. */
  function StartPlace(P: nat, N: nat, a: nat, n: nat): (r: (nat, nat))
    requires 0 < P && InRange(P, N, a, n)
    ensures r.0 < N && r.1 < P && Base(P, r.0) + r.1 == 512 * a
  {
    StartOf(P, N, a, n);
    (512 * a / P, 512 * a % P)
  }

  /** What writing n blocks from block a on leaves on the chip when the host sends only `data`. */
  function WriteResult(P: nat, ram: bool, m: Image, a: nat, n: nat, data: seq<bv8>, done: bool): (r: Image)
    requires 0 < P && m.Sized(P, |m.main|) && InRange(P, |m.main|, a, n) && |data| <= 512 * n
    ensures r.Sized(P, |m.main|)
  {
    var (page, off) := StartPlace(P, |m.main|, a, n);
    WritePages(P, ram, Prepared(P, m, page), false, page, off, data, 512 * n - |data|, done)
  }

  lemma WriteResultFrom(P: nat, ram: bool, m: Image, a: nat, n: nat, data: seq<bv8>, done: bool, page: nat, off: nat)
    requires 0 < P && m.Sized(P, |m.main|) && InRange(P, |m.main|, a, n) && |data| <= 512 * n
    requires page < |m.main| && off < P && 512 * a == Base(P, page) + off
    ensures WriteResult(P, ram, m, a, n, data, done)
         == WritePages(P, ram, Prepared(P, m, page), false, page, off, data, 512 * n - |data|, done)
  {
    BaseProduct(P, page);
    DivMod(P, 512 * a, page, off);
  }

  lemma {:induction false} BaseAligned(P: nat, page: nat)
    requires P % 16 == 0
    ensures Base(P, page) % 16 == 0
  {
    if page > 0 {
      BaseAligned(P, page - 1);
    }
  }

  /** Blocks and pages both start at multiples of 16, so a block starts on a chunk of its page. */
  lemma Sixteenths(P: nat, page: nat, off: nat, a: nat)
    requires PageSizeOk(P) && off < P && Base(P, page) + off == 512 * a
    ensures off == 16 * (off / 16) && off / 16 < 0x100
  {
    BaseAligned(P, page);
  }

  /** Page, byte in the page and 16-byte chunk in the page at which block `blockAddress` starts. */
  method Locate(P: nat, N: nat, blockAddress: nat, ghost n: nat) returns (page: nat, pageByte: nat, pageByteDiv16: nat)
    requires Geometry(P, N) && InRange(P, N, blockAddress, n)
    ensures page < N && pageByte < P && Base(P, page) + pageByte == 512 * blockAddress
    ensures pageByte == 16 * pageByteDiv16
  {
    var address := U32(blockAddress * 512);
    ghost var place := StartPlace(P, N, blockAddress, n);
    Sixteenths(P, place.0, place.1, blockAddress);
    page := U16(address / P);
    pageByte := U16(address % P);
    pageByteDiv16 := U8(pageByte / 16);
  }

  // ----- steps of the loops

  lemma OverlayTwice(b: seq<bv8>, off: nat, data: seq<bv8>, k: nat)
    requires off + |data| <= |b| && k <= |data|
    ensures Overlay(Overlay(b, off, data[..k]), off + k, data[k..]) == Overlay(b, off, data)
  {
  }

  lemma FilledTwice(m: Image, ram: bool, second: bool, off: nat, data: seq<bv8>, k: nat)
    requires off + |data| <= |m.Buffer(TargetsSecond(ram, second))| && k <= |data|
    ensures Filled(Filled(m, ram, second, off, data[..k]), ram, second, off + k, data[k..])
         == Filled(m, ram, second, off, data)
  {
    OverlayTwice(m.Buffer(TargetsSecond(ram, second)), off, data, k);
  }

  lemma SliceBehind(data: seq<bv8>, k: nat, room: nat)
    requires k <= room <= |data|
    ensures data[k..][..room - k] == data[..room][k..] && data[k..][room - k..] == data[room..]
    ensures data[..room][..k] == data[..k]
  {
  }

  lemma FillFirstTurns(P: nat, ram: bool, m: Image, second: bool, page: nat, off: nat,
                       data: seq<bv8>, k: nat, owed: nat, done: bool)
    requires m.Sized(P, |m.main|) && page < |m.main| && off + k <= P && P - off < |data|
    ensures WritePages(P, ram, m, second, page, off, data, owed, done)
         == WritePages(P, ram, Filled(m, ram, second, off, data[..k]), second, page, off + k, data[k..], owed, done)
  {
    SliceBehind(data, k, P - off);
    FilledTwice(m, ram, second, off, data[..P - off], k);
  }

  /** Sending the first chunk of the data early changes nothing. */
  lemma FillFirst(P: nat, ram: bool, m: Image, second: bool, page: nat, off: nat,
                  data: seq<bv8>, k: nat, owed: nat, done: bool)
    requires m.Sized(P, |m.main|) && page < |m.main| && off + k <= P && k <= |data|
    ensures WritePages(P, ram, m, second, page, off, data, owed, done)
         == WritePages(P, ram, Filled(m, ram, second, off, data[..k]), second, page, off + k, data[k..], owed, done)
  {
    if |data| <= P - off {
      FilledTwice(m, ram, second, off, data, k);
    } else {
      FillFirstTurns(P, ram, m, second, page, off, data, k, owed, done);
    }
  }

  /** At the end of a page with data left, the transfer goes on with the next page. */
  lemma TurnPage(P: nat, ram: bool, m: Image, second: bool, page: nat, data: seq<bv8>, owed: nat, done: bool,
                 blocks: nat)
    requires m.Sized(P, |m.main|) && page + 1 < |m.main| && data != []
    requires blocks == CeilBlocks(|data| + owed)
    ensures WritePages(P, ram, m, second, page, P, data, owed, done)
         == WritePages(P, ram, NextPage(P, m, second, page, blocks), !second, page + 1, 0, data, owed, done)
  {
    var b := m.Buffer(TargetsSecond(ram, second));
    assert Overlay(b, P, data[..0]) == b;
    assert data[0..] == data;
  }

  /** With no data left, only the commit remains. */
  lemma LastPage(P: nat, ram: bool, m: Image, second: bool, page: nat, off: nat, owed: nat, done: bool)
    requires m.Sized(P, |m.main|) && page < |m.main| && off <= P
    ensures WritePages(P, ram, m, second, page, off, [], owed, done) == if done then Committed(m, second, page) else m
  {
    var b := m.Buffer(TargetsSecond(ram, second));
    assert Overlay(b, off, []) == b;
  }

  lemma OverlayNext(b: seq<bv8>, off: nat, data: seq<bv8>, i: nat)
    requires off + |data| <= |b| && i < |data|
    ensures Overlay(b, off, data[..i])[off + i := data[i]] == Overlay(b, off, data[..i + 1])
  {
  }

  lemma WrapNext(at: nat, size: nat)
    requires at < size
    ensures (at + 1) % size == if at + 1 == size then 0 else at + 1
  {
  }

  /** Sixteen data bytes, one after the other. */
  method SendChunk(chip: Chip, chunk: seq<bv8>, ghost second: bool, ghost off: nat)
    requires chip.Valid() && chip.selected && |chunk| == 16
    requires off + 16 <= chip.pageSize && chip.access == IntoBuffer(second, off)
    modifies chip`buffer1, chip`buffer2, chip`access
    ensures chip.Valid()
    ensures chip.access == IntoBuffer(second, if off + 16 == chip.pageSize then 0 else off + 16)
    ensures var m := old(chip.Stored());
            chip.Stored() == m.WithBuffer(second, Overlay(m.Buffer(second), off, chunk))
  {
    ghost var m := chip.Stored();
    ghost var b := m.Buffer(second);
    var i := 0;
    assert Overlay(b, off, chunk[..0]) == b;
    while i < 16
      invariant 0 <= i <= 16
      invariant chip.Valid() && chip.selected
      invariant chip.access.IntoBuffer? && chip.access.second == second
      invariant chip.access.at == if off + i == chip.pageSize then 0 else off + i
      invariant chip.Stored() == m.WithBuffer(second, Overlay(b, off, chunk[..i]))
    {
      WrapNext(off + i, chip.pageSize);
      OverlayNext(b, off, chunk, i);
      chip.SendByte(chunk[i]);
      i := i + 1;
    }
    assert chunk[..16] == chunk;
  }

  /** Programs the full page, moves on to the next one and, near the end, copies it into its buffer. */
  method ChangePage(chip: Chip, page: nat, second: bool, blocks: nat) returns (nextPage: nat, nextSecond: bool)
    requires chip.Valid() && chip.selected && page + 1 < chip.pageCount <= 0x1_0000
    modifies chip
    ensures chip.Valid() && chip.selected && chip.access == Idle
    ensures nextPage == page + 1 && nextSecond == !second
    ensures chip.Stored() == NextPage(chip.pageSize, old(chip.Stored()), second, page, blocks)
  {
    chip.WaitWhileBusy();
    chip.BufferToMainMemWithErase(second, page);
    nextPage := U16(page + 1);
    nextSecond := if chip.selected then !second else second;
    chip.SelectChipFromPage(nextPage);
    if chip.pageSize > 512 && U16(blocks * 32) < chip.pageSize / 16 {
      chip.WaitWhileBusy();
      chip.MainMemToBuffer(nextSecond, nextPage);
      chip.WaitWhileBusy();
    }
  }

  lemma CeilExact(bytes: nat, blocks: nat, chunks: nat)
    requires bytes + 16 * chunks == 512 * blocks && chunks < 32
    ensures CeilBlocks(bytes) == blocks
  {
  }

  /** The image once one chunk is stored, the page being turned first if it is full. */
  function ChunkStored(P: nat, ram: bool, m: Image, second: bool, page: nat, off: nat, blocks: nat,
                       chunk: seq<bv8>): (r: Image)
    requires m.Sized(P, |m.main|) && page < |m.main| && |chunk| == 16
    requires if off == P then page + 1 < |m.main| && 16 <= P else off + 16 <= P
  {
    if off == P then Filled(NextPage(P, m, second, page, blocks), ram, !second, 0, chunk)
    else Filled(m, ram, second, off, chunk)
  }

  /** `ChunkStored` keeps what the write ends in, on the same page and across a page change. */
  lemma ChunkInPage(P: nat, ram: bool, m: Image, second: bool, page: nat, off: nat, blocks: nat, data: seq<bv8>,
                    owed: nat, done: bool)
    requires m.Sized(P, |m.main|) && page < |m.main| && 16 <= |data| && off + 16 <= P && off != P
    ensures WritePages(P, ram, m, second, page, off, data, owed, done)
         == WritePages(P, ram, ChunkStored(P, ram, m, second, page, off, blocks, data[..16]), second, page, off + 16,
                       data[16..], owed, done)
  {
    FillFirst(P, ram, m, second, page, off, data, 16, owed, done);
  }

  lemma ChunkAcrossPages(P: nat, ram: bool, m: Image, second: bool, page: nat, blocks: nat, data: seq<bv8>,
                         owed: nat, done: bool)
    requires m.Sized(P, |m.main|) && page + 1 < |m.main| && 16 <= |data| && 16 <= P
    requires blocks == CeilBlocks(|data| + owed)
    ensures WritePages(P, ram, m, second, page, P, data, owed, done)
         == WritePages(P, ram, ChunkStored(P, ram, m, second, page, P, blocks, data[..16]), !second, page + 1, 16,
                       data[16..], owed, done)
  {
    TurnPage(P, ram, m, second, page, data, owed, done, blocks);
    FillFirst(P, ram, NextPage(P, m, second, page, blocks), !second, page + 1, 0, data, 16, owed, done);
  }

  /** One chunk, in either case: what is left of the write, and that there is room for it. */
  lemma ChunkStep(P: nat, ram: bool, m: Image, second: bool, page: nat, off: nat, blocks: nat, data: seq<bv8>,
                  owed: nat, done: bool)
    requires m.Sized(P, |m.main|) && page < |m.main| && 16 <= |data| && 16 <= P && (off == P || off + 16 <= P)
    requires Base(P, page) + off + |data| <= Base(P, |m.main|) && blocks == CeilBlocks(|data| + owed)
    ensures var turn := off == P;
            var next, at := if turn then page + 1 else page, if turn then 16 else off + 16;
            && next < |m.main| && at <= P && Base(P, next) + at + |data[16..]| <= Base(P, |m.main|)
            && WritePages(P, ram, m, second, page, off, data, owed, done) ==
               WritePages(P, ram, ChunkStored(P, ram, m, second, page, off, blocks, data[..16]),
                          if turn then !second else second, next, at, data[16..], owed, done)
  {
    if off == P {
      MorePages(P, |m.main|, page, P + |data|);
      ChunkAcrossPages(P, ram, m, second, page, blocks, data, owed, done);
    } else {
      ChunkInPage(P, ram, m, second, page, off, blocks, data, owed, done);
    }
  }

  method StoreChunk(chip: Chip, page: nat, pageByteDiv16: nat, second: bool, blocks: nat, chunk: seq<bv8>, ram: bool)
    returns (nextPage: nat, nextDiv16: nat, nextSecond: bool)
    requires chip.Valid() && chip.selected && PageSizeOk(chip.pageSize) && chip.pageCount <= 0x1_0000
    requires page < chip.pageCount && 16 * pageByteDiv16 <= chip.pageSize && |chunk| == 16
    requires 16 * pageByteDiv16 == chip.pageSize ==> page + 1 < chip.pageCount
    requires 16 * pageByteDiv16 < chip.pageSize ==>
               chip.access == IntoBuffer(TargetsSecond(ram, second), 16 * pageByteDiv16)
    modifies chip
    ensures chip.Valid() && chip.selected
    ensures if 16 * pageByteDiv16 == chip.pageSize
            then nextPage == page + 1 && nextDiv16 == 1 && nextSecond == !second
            else nextPage == page && nextDiv16 == pageByteDiv16 + 1 && nextSecond == second
    ensures 16 * nextDiv16 <= chip.pageSize
    ensures 16 * nextDiv16 < chip.pageSize ==> chip.access == IntoBuffer(TargetsSecond(ram, nextSecond), 16 * nextDiv16)
    ensures chip.Stored() == ChunkStored(chip.pageSize, ram, old(chip.Stored()), second, page, 16 * pageByteDiv16,
                                         blocks, chunk)
  {
    nextPage, nextDiv16, nextSecond := page, pageByteDiv16, second;
    if pageByteDiv16 == chip.pageSize / 16 {
      nextPage, nextSecond := ChangePage(chip, page, second, blocks);
      nextDiv16 := 0;
      if ram {
        chip.ToggleSelect();
      }
      chip.BufferWrite(if ram then false else nextSecond, 0);
    }
    SendChunk(chip, chunk, TargetsSecond(ram, nextSecond), 16 * nextDiv16);
    nextDiv16 := U8(nextDiv16 + 1);
  }

  /** What every chunk of a write keeps: with `rest` still to come, the write ends in `target`. */
  ghost predicate OnCourse(chip: Chip, ram: bool, page: nat, off: nat, second: bool, rest: seq<bv8>, owed: nat,
                           done: bool, target: Image)
    reads chip
  {
    && chip.Valid() && chip.selected && PageSizeOk(chip.pageSize) && chip.pageCount <= 0x1_0000
    && page < chip.pageCount && off <= chip.pageSize
    && (off < chip.pageSize ==> chip.access == IntoBuffer(TargetsSecond(ram, second), off))
    && Base(chip.pageSize, page) + off + |rest| <= Base(chip.pageSize, chip.pageCount)
    && target == WritePages(chip.pageSize, ram, chip.Stored(), second, page, off, rest, owed, done)
  }

  /** One chunk of a write. */
  method WriteChunk(chip: Chip, ram: bool, page: nat, pageByteDiv16: nat, second: bool, blocks: nat, chunk: seq<bv8>,
                    ghost rest: seq<bv8>, ghost owed: nat, ghost done: bool, ghost target: Image)
    returns (nextPage: nat, nextDiv16: nat, nextSecond: bool)
    requires OnCourse(chip, ram, page, 16 * pageByteDiv16, second, rest, owed, done, target)
    requires 16 <= |rest| && chunk == rest[..16] && blocks == CeilBlocks(|rest| + owed)
    modifies chip
    ensures OnCourse(chip, ram, nextPage, 16 * nextDiv16, nextSecond, rest[16..], owed, done, target)
  {
    ghost var off, P := 16 * pageByteDiv16, chip.pageSize;
    ChunkStep(P, ram, chip.Stored(), second, page, off, blocks, rest, owed, done);
    ghost var next := ChunkStored(P, ram, chip.Stored(), second, page, off, blocks, chunk);
    ghost var turn, at := off == P, if off == P then 16 else off + 16;
    nextPage, nextDiv16, nextSecond := StoreChunk(chip, page, pageByteDiv16, second, blocks, chunk, ram);
    assert chip.Stored() == next;
    assert nextPage == (if turn then page + 1 else page) && 16 * nextDiv16 == at &&
           nextSecond == (if turn then !second else second);
  }

  /** One block: 32 chunks, unless the host leaves before that. */
  method WriteBlock(chip: Chip, ram: bool, firstPage: nat, firstDiv16: nat, firstSecond: bool, blocks: nat,
                    received: seq<bv8>, ghost owed: nat, ghost done: bool, ghost target: Image)
    returns (page: nat, pageByteDiv16: nat, second: bool, rest: seq<bv8>)
    requires OnCourse(chip, ram, firstPage, 16 * firstDiv16, firstSecond, received, owed, done, target)
    requires |received| % 16 == 0 && |received| + owed == 512 * blocks && 0 < blocks
    modifies chip
    ensures OnCourse(chip, ram, page, 16 * pageByteDiv16, second, rest, owed, done, target)
    ensures |rest| % 16 == 0 && rest == if |received| < 512 then [] else received[512..]
  {
    page, pageByteDiv16, second, rest := firstPage, firstDiv16, firstSecond, received;
    var bytesInBlockDiv16 := 0;
    ghost var chunks := |received| / 16;
    assert |received| == 16 * chunks;
    while bytesInBlockDiv16 < 32
      invariant 0 <= bytesInBlockDiv16 <= 32 && bytesInBlockDiv16 <= chunks &&
                |rest| == 16 * (chunks - bytesInBlockDiv16)
      invariant 0 <= page && 0 <= pageByteDiv16
      invariant rest == received[16 * bytesInBlockDiv16..]
      invariant OnCourse(chip, ram, page, 16 * pageByteDiv16, second, rest, owed, done, target)
    {
      if rest == [] {
        return;
      }
      CeilExact(|rest| + owed, blocks, bytesInBlockDiv16);
      page, pageByteDiv16, second :=
        WriteChunk(chip, ram, page, pageByteDiv16, second, blocks, rest[..16], rest, owed, done, target);
      rest := rest[16..];
      bytesInBlockDiv16 := bytesInBlockDiv16 + 1;
    }
  }

  /**
   The blocks of a write, from the first data byte to the final page program. A host that leaves is
   noticed before the next chunk, or after the last one.
   */
  method WriteStream(chip: Chip, ram: bool, firstPage: nat, firstDiv16: nat, totalBlocks: nat, received: seq<bv8>,
                     gone: bool, ghost target: Image)
    returns (completed: bool)
    requires |received| % 16 == 0 && |received| <= 512 * totalBlocks
    requires !gone ==> |received| == 512 * totalBlocks
    requires OnCourse(chip, ram, firstPage, 16 * firstDiv16, false, received, 512 * totalBlocks - |received|, !gone,
                      target)
    modifies chip
    ensures chip.Valid() && completed == !gone
    ensures !gone ==> !chip.selected
    ensures chip.Stored() == target
  {
    ghost var owed := 512 * totalBlocks - |received|;
    var page, pageByteDiv16, usingSecond, rest := firstPage, firstDiv16, false, received;
    var blocks := totalBlocks;
    while blocks != 0
      invariant 0 <= blocks <= totalBlocks && 0 <= page && 0 <= pageByteDiv16
      invariant |rest| % 16 == 0 && (rest == [] || |rest| + owed == 512 * blocks) && |rest| <= 512 * blocks
      invariant OnCourse(chip, ram, page, 16 * pageByteDiv16, usingSecond, rest, owed, !gone, target)
      invariant !gone ==> |rest| == 512 * blocks
    {
      if rest == [] {
        LastPage(chip.pageSize, ram, chip.Stored(), usingSecond, page, 16 * pageByteDiv16, owed, !gone);
        return false;
      }
      page, pageByteDiv16, usingSecond, rest :=
        WriteBlock(chip, ram, page, pageByteDiv16, usingSecond, blocks, rest, owed, !gone, target);
      blocks := blocks - 1;
    }

    LastPage(chip.pageSize, ram, chip.Stored(), usingSecond, page, 16 * pageByteDiv16, owed, !gone);
    if gone {
      return false;
    }
    chip.WaitWhileBusy();
    chip.BufferToMainMemWithErase(usingSecond, page);
    chip.WaitWhileBusy();
    chip.Deselect();
    return true;
  }

  lemma NothingWritten(P: nat, ram: bool, m: Image, page: nat, off: nat, owed: nat)
    requires m.Sized(P, |m.main|) && page < |m.main| && off < P
    ensures WritePages(P, ram, m, false, page, off, [], owed, false) == m
  {
    assert Overlay(m.buffer1, off, []) == m.buffer1;
  }

  /** A write from a known place on: page preparation, then the data. */
  method WriteFrom(chip: Chip, ram: bool, page: nat, pageByteDiv16: nat, totalBlocks: nat, received: seq<bv8>,
                   gone: bool)
    returns (completed: bool)
    requires chip.Valid() && PageSizeOk(chip.pageSize) && chip.pageCount <= 0x1_0000
    requires page < chip.pageCount && 16 * pageByteDiv16 < chip.pageSize
    requires Base(chip.pageSize, page) + 16 * pageByteDiv16 + 512 * totalBlocks <= Base(chip.pageSize, chip.pageCount)
    requires |received| % 16 == 0 && |received| <= 512 * totalBlocks
    requires !gone ==> |received| == 512 * totalBlocks
    modifies chip
    ensures chip.Valid() && completed == !gone
    ensures !gone ==> !chip.selected
    ensures chip.Stored() == WritePages(chip.pageSize, ram, Prepared(chip.pageSize, old(chip.Stored()), page),
                                        false, page, 16 * pageByteDiv16, received,
                                        512 * totalBlocks - |received|, !gone)
  {
    chip.SelectChipFromPage(page);
    if chip.pageSize > 512 {
      chip.MainMemToBuffer(false, page);
      chip.WaitWhileBusy();
    }
    chip.BufferWrite(false, 16 * pageByteDiv16);

    if gone && received == [] {
      NothingWritten(chip.pageSize, ram, chip.Stored(), page, 16 * pageByteDiv16, 512 * totalBlocks);
      return false;
    }
    ghost var target := WritePages(chip.pageSize, ram, chip.Stored(), false, page, 16 * pageByteDiv16, received,
                                   512 * totalBlocks - |received|, !gone);
    completed := WriteStream(chip, ram, page, pageByteDiv16, totalBlocks, received, gone, target);
  }

  /**
   Writes `totalBlocks` blocks from block `blockAddress` on. The host sends `received`; if `gone`, it then
   resets the interface or leaves, and the write returns without its final page program.
   */
  method WriteBlocks(chip: Chip, blockAddress: nat, totalBlocks: nat, received: seq<bv8>, gone: bool)
    returns (completed: bool)
    requires chip.Valid() && Geometry(chip.pageSize, chip.pageCount)
    requires InRange(chip.pageSize, chip.pageCount, blockAddress, totalBlocks)
    requires |received| % 16 == 0 && |received| <= 512 * totalBlocks
    requires !gone ==> |received| == 512 * totalBlocks
    modifies chip
    ensures chip.Valid() && completed == !gone
    ensures !gone ==> !chip.selected
    ensures chip.Stored() == WriteResult(chip.pageSize, false, old(chip.Stored()), blockAddress, totalBlocks, received,
                                         !gone)
  {
    var page, pageByte, pageByteDiv16 := Locate(chip.pageSize, chip.pageCount, blockAddress, totalBlocks);
    WriteResultFrom(chip.pageSize, false, chip.Stored(), blockAddress, totalBlocks, received, !gone, page, pageByte);
    completed := WriteFrom(chip, false, page, pageByteDiv16, totalBlocks, received, gone);
  }

  lemma Whole(s: seq<bv8>, blocks: nat)
    requires |s| == 512 * blocks
    ensures |s| % 16 == 0
  {
    assert |s| == 16 * (32 * blocks);
  }

  /** The variant fed from RAM: no host to leave, and bytes always sent to the first buffer. */
  method WriteBlocksRam(chip: Chip, blockAddress: nat, totalBlocks: nat, source: array<bv8>)
    requires chip.Valid() && Geometry(chip.pageSize, chip.pageCount)
    requires InRange(chip.pageSize, chip.pageCount, blockAddress, totalBlocks)
    requires source.Length == 512 * totalBlocks
    modifies chip
    ensures chip.Valid() && !chip.selected
    ensures chip.Stored() == WriteResult(chip.pageSize, true, old(chip.Stored()), blockAddress, totalBlocks,
                                         source[..], true)
  {
    var page, pageByte, pageByteDiv16 := Locate(chip.pageSize, chip.pageCount, blockAddress, totalBlocks);
    Whole(source[..], totalBlocks);
    WriteResultFrom(chip.pageSize, true, chip.Stored(), blockAddress, totalBlocks, source[..], true, page, pageByte);
    var completed := WriteFrom(chip, true, page, pageByteDiv16, totalBlocks, source[..], false);
  }

  // ----- reading

  /** Sixteen data bytes of a page read. */
  method ReceiveChunk(chip: Chip, ghost page: nat, ghost off: nat) returns (chunk: seq<bv8>)
    requires chip.Valid() && chip.selected && chip.access == FromPage(page, off) && off + 16 <= chip.pageSize
    modifies chip`access
    ensures chip.Valid()
    ensures chip.access == FromPage(page, if off + 16 == chip.pageSize then 0 else off + 16)
    ensures chunk == chip.main[page][off..off + 16]
  {
    chunk := [];
    var i := 0;
    while i < 16
      invariant 0 <= i <= 16
      invariant chip.Valid() && chip.selected && chip.access.FromPage? && chip.access.page == page
      invariant chip.access.at == if off + i == chip.pageSize then 0 else off + i
      invariant chunk == chip.main[page][off..off + i]
    {
      WrapNext(off + i, chip.pageSize);
      var b := chip.ReceiveByte();
      chunk := chunk + [b];
      i := i + 1;
    }
  }

  /** The pages one after the other: the medium as the host sees it. */
  function Flat(main: seq<seq<bv8>>): (r: seq<bv8>) {
    if main == [] then [] else Flat(main[..|main| - 1]) + main[|main| - 1]
  }

  lemma {:induction false} FlatSize(P: nat, main: seq<seq<bv8>>)
    requires forall p :: 0 <= p < |main| ==> |main[p]| == P
    ensures |Flat(main)| == Base(P, |main|)
  {
    if main != [] {
      FlatSize(P, main[..|main| - 1]);
    }
  }

  lemma SliceLeft(x: seq<bv8>, y: seq<bv8>, from: nat, to: nat)
    requires from <= to <= |x|
    ensures (x + y)[from..to] == x[from..to]
  {
  }

  lemma SliceRight(x: seq<bv8>, y: seq<bv8>, from: nat, to: nat)
    requires from <= to <= |y|
    ensures (x + y)[|x| + from..|x| + to] == y[from..to]
  {
  }

  lemma BaseBelow(P: nat, page: nat, n: nat)
    ensures page < n ==> Base(P, page) + P <= Base(P, n)
  {
    BaseProduct(P, page);
    BaseProduct(P, n);
    Monotone(P, page, n);
  }

  /** A page lies in the flat view at its base. */
  lemma {:induction false} FlatAt(P: nat, main: seq<seq<bv8>>, page: nat, from: nat, to: nat)
    requires page < |main| && from <= to <= P && forall p :: 0 <= p < |main| ==> |main[p]| == P
    ensures |Flat(main)| == Base(P, |main|) && Base(P, page) + P <= |Flat(main)|
    ensures Flat(main)[Base(P, page) + from..Base(P, page) + to] == main[page][from..to]
    decreases |main|
  {
    var n := |main| - 1;
    var before := main[..n];
    FlatSize(P, main);
    FlatSize(P, before);
    BaseBelow(P, page, n);
    if page < n {
      FlatAt(P, before, page, from, to);
      SliceLeft(Flat(before), main[n], Base(P, page) + from, Base(P, page) + to);
    } else {
      SliceRight(Flat(before), main[n], from, to);
    }
  }

  /**
   Between two chunks of a read of the pages `main`: the chip is set to deliver the byte at `at`,
   unless a page has just ended.
   */
  ghost predicate Reading(chip: Chip, page: nat, off: nat, at: nat, main: seq<seq<bv8>>)
    reads chip
  {
    && chip.Valid() && chip.selected && PageSizeOk(chip.pageSize) && chip.pageCount <= 0x1_0000
    && page < chip.pageCount && off <= chip.pageSize
    && (off < chip.pageSize ==> chip.access == FromPage(page, off))
    && Base(chip.pageSize, page) + off == at
    && chip.main == main
  }

  method ReadChunk(chip: Chip, page: nat, pageByteDiv16: nat, ghost at: nat, ghost main: seq<seq<bv8>>,
                   ghost flat: seq<bv8>)
    returns (chunk: seq<bv8>, nextPage: nat, nextDiv16: nat)
    requires Reading(chip, page, 16 * pageByteDiv16, at, main) && flat == Flat(main)
    requires at + 16 <= |flat| == Base(chip.pageSize, chip.pageCount)
    modifies chip`selected, chip`access
    ensures Reading(chip, nextPage, 16 * nextDiv16, at + 16, main)
    ensures chunk == flat[at..at + 16]
  {
    nextPage, nextDiv16 := page, pageByteDiv16;
    if pageByteDiv16 == chip.pageSize / 16 {
      MorePages(chip.pageSize, chip.pageCount, page, chip.pageSize + 16);
      nextDiv16 := 0;
      nextPage := U16(page + 1);
      chip.SelectChipFromPage(nextPage);
      chip.MainMemPageRead(nextPage, 0);
    }
    FlatAt(chip.pageSize, chip.main, nextPage, 16 * nextDiv16, 16 * nextDiv16 + 16);
    chunk := ReceiveChunk(chip, nextPage, 16 * nextDiv16);
    nextDiv16 := U8(nextDiv16 + 1);
  }

  lemma SliceGrows(s: seq<bv8>, from: nat, to: nat, end: nat)
    requires from <= to <= end <= |s|
    ensures s[from..to] + s[to..end] == s[from..end]
  {
  }

  /** One block, unless the host takes only `wanted` chunks of it. */
  method ReadBlock(chip: Chip, firstPage: nat, firstDiv16: nat, wanted: nat, ghost at: nat, ghost main: seq<seq<bv8>>,
                   ghost flat: seq<bv8>)
    returns (block: seq<bv8>, page: nat, pageByteDiv16: nat)
    requires Reading(chip, firstPage, 16 * firstDiv16, at, main) && flat == Flat(main)
    requires at + 512 <= |flat| == Base(chip.pageSize, chip.pageCount)
    modifies chip`selected, chip`access
    ensures |block| == if wanted < 32 then 16 * wanted else 512
    ensures Reading(chip, page, 16 * pageByteDiv16, at + |block|, main)
    ensures block == flat[at..at + |block|]
  {
    page, pageByteDiv16, block := firstPage, firstDiv16, [];
    var bytesInBlockDiv16 := 0;
    while bytesInBlockDiv16 < 32
      invariant 0 <= bytesInBlockDiv16 <= 32 && bytesInBlockDiv16 <= wanted
      invariant 0 <= page && 0 <= pageByteDiv16 && |block| == 16 * bytesInBlockDiv16
      invariant Reading(chip, page, 16 * pageByteDiv16, at + |block|, main)
      invariant block == flat[at..at + |block|]
    {
      if bytesInBlockDiv16 == wanted {
        return;
      }
      var chunk;
      chunk, page, pageByteDiv16 := ReadChunk(chip, page, pageByteDiv16, at + |block|, main, flat);
      SliceGrows(flat, at, at + |block|, at + |block| + 16);
      block := block + chunk;
      bytesInBlockDiv16 := bytesInBlockDiv16 + 1;
    }
  }

  method ReadStream(chip: Chip, firstPage: nat, firstDiv16: nat, totalBlocks: nat, wanted: nat,
                    ghost at: nat, ghost main: seq<seq<bv8>>, ghost flat: seq<bv8>)
    returns (sent: seq<bv8>)
    requires Reading(chip, firstPage, 16 * firstDiv16, at, main) && flat == Flat(main)
    requires at + 512 * totalBlocks <= |flat| == Base(chip.pageSize, chip.pageCount)
    modifies chip`selected, chip`access
    ensures chip.Valid()
    ensures |sent| == 16 * if wanted < 32 * totalBlocks then wanted else 32 * totalBlocks
    ensures at + |sent| <= |flat| && sent == flat[at..at + |sent|]
    ensures wanted >= 32 * totalBlocks ==> !chip.selected
  {
    var page, pageByteDiv16, blocks, left := firstPage, firstDiv16, totalBlocks, wanted;
    sent := [];
    ghost var here := at;
    while blocks != 0
      invariant 0 <= blocks <= totalBlocks && here == at + 512 * (totalBlocks - blocks)
      invariant 0 <= left && 16 * wanted == |sent| + 16 * left
      invariant 0 <= page && 0 <= pageByteDiv16 && Reading(chip, page, 16 * pageByteDiv16, here, main)
      invariant here == at + |sent| <= |flat| && sent == flat[at..here]
    {
      var block;
      block, page, pageByteDiv16 := ReadBlock(chip, page, pageByteDiv16, left, here, main, flat);
      SliceGrows(flat, at, here, here + |block|);
      sent, here := sent + block, here + |block|;
      if left < 32 {
        return;
      }
      left := left - 32;
      blocks := blocks - 1;
    }
    chip.Deselect();
  }

  /** Reads blocks; the host takes at most `wanted` chunks before it resets the interface or leaves. */
  method ReadBlocks(chip: Chip, blockAddress: nat, totalBlocks: nat, wanted: nat) returns (sent: seq<bv8>)
    requires chip.Valid() && Geometry(chip.pageSize, chip.pageCount)
    requires InRange(chip.pageSize, chip.pageCount, blockAddress, totalBlocks)
    modifies chip`selected, chip`access
    ensures chip.Valid()
    ensures |sent| == 16 * if wanted < 32 * totalBlocks then wanted else 32 * totalBlocks
    ensures 512 * blockAddress + |sent| <= |Flat(chip.main)|
    ensures sent == Flat(chip.main)[512 * blockAddress..512 * blockAddress + |sent|]
    ensures wanted >= 32 * totalBlocks ==> !chip.selected
  {
    var page, pageByte, pageByteDiv16 := Locate(chip.pageSize, chip.pageCount, blockAddress, totalBlocks);
    FlatSize(chip.pageSize, chip.main);
    RangeEnd(chip.pageSize, chip.pageCount, blockAddress, totalBlocks);
    chip.SelectChipFromPage(page);
    chip.MainMemPageRead(page, pageByte);
    assert Reading(chip, page, 16 * pageByteDiv16, 512 * blockAddress, chip.main);
    sent := ReadStream(chip, page, pageByteDiv16, totalBlocks, wanted, 512 * blockAddress, chip.main, Flat(chip.main));
  }
}
