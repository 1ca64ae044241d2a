/**
 The commands of the host byte by byte: which 64 KB page a transfer goes to, how the loader is left, and what the
 host is told of its state.
 */
module DfuCommands {
  import opened Words
  import opened AvrFlash
  import opened AvrEeprom
  import opened DfuFlash
  import opened Dfu
  import opened DfuTheorems

  // ----- the 64 KB page

  /** The command that sets the 64 KB page: 06 03 00 and the number of the page. */
  predicate IsPageCommand(r: Request) {
    && r.Dnload? && r.wLength > 0 && RequestOk(r)
    && r.code == 0x06 && |r.params| >= 3 && r.params[0] == 0x03 && r.params[1] == 0x00
  }

  /** It sets the page to its third parameter and changes no memory. */
  lemma PageSet(p: Part, s: State, r: Request)
    requires Open(p, s) && IsPageCommand(r) && (s.state == DnloadIdle ==> Bare(r))
    ensures var s' := Step(p, s, r);
            && s'.page64 == r.params[2] as nat && s'.mem == s.mem && Open(p, s')
            && s'.state == (if s.state == DnloadIdle then DfuIdle else s.state) && s'.status == s.status
  {
    var c := CommandStep(p, s, r);
    assert Process(p, c) == c.(page64 := c.sent.data[2] as nat);
    StepKeeps(p, s, r);
  }

  /** A download goes on in the page that it was begun in. */
  lemma PageOfDownload(p: Part, s: State, payload: nat -> bv8)
    requires StateOk(p, s)
    ensures Downloading(s, payload).page64 == s.page64
  {
  }

  lemma PageInProcess(p: Part, c: State)
    requires Inv(p, c)
    requires !(c.sent.code == 0x06 && c.sent.data[0] == 0x03 && c.sent.data[1] == 0x00)
    requires !(c.sent.code == 0x03 && c.sent.data[0] == 0x01)
    ensures Process(p, c).page64 == c.page64
  {
  }

  /** No other request sets it, but for the blank check, which leaves there what it found. */
  lemma PageKept(p: Part, s: State, r: Request)
    requires Inv(p, s) && RequestOk(r)
    requires r.Dnload? && r.wLength > 0 ==>
               var data := Received(s.sent, r).data;
               !(r.code == 0x06 && data[0] == 0x03 && data[1] == 0x00) && !(r.code == 0x03 && data[0] == 0x01)
    ensures Step(p, s, r).page64 == s.page64
  {
    if r.Dnload? && r.wLength > 0 {
      var c := CommandStep(p, s, r);
      PageInProcess(p, c);
      if Process(p, c).state == DnloadIdle {
        PageOfDownload(p, Process(p, c), r.payload);
      }
    } else if r.Dnload? {
      var sized := s.(sent := s.sent.(size := 0));
      ExitingOnly(p, sized);
      assert Step(p, s, r) == Finished(p, Exiting(p, sized), r);
    }
  }

  /** A command with two addresses, the high byte of each first. */
  function Transfer(code: bv8, memory: bv8, a: seq<bv8>, wLength: nat, payload: nat -> bv8): (r: Request)
    requires |a| == 4
  {
    Dnload(wLength, code, [memory, a[0], a[1], a[2], a[3]], payload)
  }

  /** The first address, and the number of bytes up to the second. */
  function First(a: seq<bv8>): (n: nat)
    requires |a| == 4
  {
    256 * a[0] as nat + a[1] as nat
  }

  function Last(a: seq<bv8>): (n: nat)
    requires |a| == 4
  {
    256 * a[2] as nat + a[3] as nat
  }

  lemma SameTransfer(code: bv8, memory: bv8, a: seq<bv8>, wLength: nat, payload: nat -> bv8)
    requires |a| == 4 && First(a) <= Last(a)
    ensures Transfer(code, memory, a, wLength, payload) == Addressed(code, memory, a, wLength, payload)
    ensures From(a) == First(a) && Asked(a) == Last(a) + 1 - First(a)
  {
  }

  /** A page, a start and an end address for whole words that start a flash page or stay within one. */
  predicate Downloadable(s: State, x: bv8, a: seq<bv8>)
    requires |a| == 4 && |s.mem.flash.temp| > 0
  {
    && First(a) % 2 == 0 && First(a) < Last(a) && (Last(a) + 1 - First(a)) % 2 == 0 && Last(a) - First(a) < 0xFFFF
    && 0x1_0000 * x as nat + Last(a) < |s.mem.flash.bytes|
    && PlaceOk(|s.mem.flash.temp|, 0x1_0000 * x as nat + First(a), Last(a) + 1 - First(a))
  }

  lemma EvenWords(n: nat)
    requires n % 2 == 0
    ensures WordBytes(n) == n
  {
  }

  lemma DownloadableSize(s: State, x: bv8, a: seq<bv8>)
    requires |a| == 4 && |s.mem.flash.temp| > 0 && Downloadable(s, x, a)
    ensures Size(a) == Asked(a) == Last(a) + 1 - First(a) > 0
  {
    SameTransfer(0x00, 0x00, a, 0, (i: nat) => 0);
    EvenWords(Last(a) + 1 - First(a));
    assert Counted(a) == Last(a) + 1 - First(a);
  }

  lemma PagedPlace(s: State, paged: State, x: bv8, a: seq<bv8>)
    requires |a| == 4 && |s.mem.flash.temp| > 0 && Downloadable(s, x, a) && paged.page64 == x as nat
    ensures var start, n := 0x1_0000 * x as nat + First(a), Last(a) + 1 - First(a);
            && First(a) <= Last(a) && From(a) % 2 == 0 && Size(a) == n > 0 && Place(paged, a) == start
            && PlaceOk(|s.mem.flash.temp|, start, n) && start + n <= |s.mem.flash.bytes|
  {
    DownloadableSize(s, x, a);
    SameTransfer(0x00, 0x00, a, 0, (i: nat) => 0);
  }

  /** The flash holds the stream from `start` on, and outside the flash pages touched what it held before. */
  predicate Stored(r: Flash, f: Flash, start: nat, n: nat, payload: nat -> bv8)
    requires |f.temp| > 0 && n > 0
  {
    && |r.bytes| == |f.bytes| && start + n <= |r.bytes|
    && (forall i :: 0 <= i < n ==> r.bytes[start + i] == payload(i))
    && forall i :: 0 <= i < |f.bytes| && !(PageStart(|f.temp|, start) <= i < PageEnd(|f.temp|, start + n)) ==>
         r.bytes[i] == f.bytes[i]
  }

  lemma DownloadedStored(r: Flash, f: Flash, start: nat, n: nat, payload: nat -> bv8)
    requires AvrFlash.Valid(f) && n > 0 && start + n <= |f.bytes| && Downloaded(r, f, start, Stream(payload, n))
    ensures Stored(r, f, start, n, payload)
  {
    var data := Stream(payload, n);
    forall i | 0 <= i < n ensures r.bytes[start + i] == payload(i) {
      assert r.bytes[start + i] == data[start + i - start];
    }
  }

  lemma PagedStored(p: Part, s: State, paged: State, x: bv8, a: seq<bv8>, wLength: nat, payload: nat -> bv8)
    requires Open(p, s) && Open(p, paged) && paged.mem == s.mem && paged.page64 == x as nat
    requires |a| == 4 && Downloadable(s, x, a) && 6 < wLength < 0x1_0000
    ensures var stored := Step(p, paged, Addressed(0x01, 0x00, a, wLength, payload));
            Stored(stored.mem.flash, s.mem.flash, 0x1_0000 * x as nat + First(a), Last(a) + 1 - First(a), payload) &&
            stored.mem.eeprom == s.mem.eeprom
  {
    PagedPlace(s, paged, x, a);
    DownloadResult(p, paged, a, wLength, payload);
    var stored := Step(p, paged, Addressed(0x01, 0x00, a, wLength, payload));
    DownloadedStored(stored.mem.flash, s.mem.flash, 0x1_0000 * x as nat + First(a), Last(a) + 1 - First(a), payload);
  }

  /**
   The page command, a download, a display command and an upload: the stream lies from the start address in that
   64 KB page on, every byte outside the flash pages touched is as it was, and the upload returns the stream.
   */
  lemma PagedDownload(p: Part, s: State, page: Request, a: seq<bv8>, wLength: nat, payload: nat -> bv8, wLength': nat)
    requires Open(p, s) && IsPageCommand(page) && Bare(page)
    requires |a| == 4 && Downloadable(s, page.params[2], a) && 6 < wLength < 0x1_0000 && wLength' < 0x1_0000
    ensures var start, n := 0x1_0000 * page.params[2] as nat + First(a), Last(a) + 1 - First(a);
            var stored := Step(p, Step(p, s, page), Transfer(0x01, 0x00, a, wLength, payload));
            var shown := Step(p, stored, Transfer(0x03, 0x00, a, 6, payload));
            && Stored(stored.mem.flash, s.mem.flash, start, n, payload) && stored.mem.eeprom == s.mem.eeprom
            && Reply(p, shown, Upload(wLength')) == Stream(payload, n)
  {
    PageSet(p, s, page);
    var paged, x := Step(p, s, page), page.params[2];
    PagedPlace(s, paged, x, a);
    SameTransfer(0x01, 0x00, a, wLength, payload);
    SameTransfer(0x03, 0x00, a, 6, payload);
    PagedStored(p, s, paged, x, a, wLength, payload);
    DownloadUpload(p, paged, a, wLength, payload, wLength');
  }

  // ----- leaving the loader

  /** The command that starts the application: 04 03, how, and for a jump two bytes of address behind a third. */
  function Leave(how: bv8, x: bv8, hi: bv8, lo: bv8, payload: nat -> bv8): (r: Request) {
    Dnload(6, 0x04, [0x03, how, x, hi, lo], payload)
  }

  function Empty(payload: nat -> bv8): (r: Request) {
    Dnload(0, 0x00, [], payload)
  }

  lemma LeaveAsked(p: Part, s: State, how: bv8, x: bv8, hi: bv8, lo: bv8, payload: nat -> bv8) returns (c: State)
    requires Open(p, s)
    ensures Open(p, c) && !c.waitForExit && c.sent == Command(0x04, [0x03, how, x, hi, lo], 0) && c.mem == s.mem
    ensures !s.waitForExit ==> c.watchdog == s.watchdog && c.run == s.run
    ensures Step(p, s, Leave(how, x, hi, lo, payload)).(state := s.state) == WriteCommand(p, c).(state := s.state)
  {
    c := CommandStep(p, s, Leave(how, x, hi, lo, payload));
    assert Process(p, c) == WriteCommand(p, c);
  }

  /** The empty request carries the pending command out once more. */
  lemma LeaveCarried(p: Part, asked: State, how: bv8, x: bv8, hi: bv8, lo: bv8, payload: nat -> bv8)
    requires Open(p, asked) && asked.waitForExit && asked.sent.code == 0x04 && asked.sent.data == [0x03, how, x, hi, lo]
    ensures var gone := Step(p, asked, Empty(payload));
            && !gone.waitForExit && gone.mem == asked.mem
            && (how == 0 ==> gone.watchdog && gone.run == asked.run)
            && (how != 0 ==> !gone.run && gone.watchdog == asked.watchdog)
            && (how != 0 ==> gone.appStart == 256 * hi as nat + lo as nat)
  {
    var sized := asked.(sent := asked.sent.(size := 0));
    assert Process(p, sized) == WriteCommand(p, sized);
    assert Step(p, asked, Empty(payload)) == Finished(p, Exiting(p, sized), Empty(payload));
  }

  /**
   The application is started once an empty request has followed: by the watchdog if `how` is zero, and otherwise
   by a jump to the address given. Until then the loader waits.
   */
  lemma LeaveLoader(p: Part, s: State, how: bv8, x: bv8, hi: bv8, lo: bv8, payload: nat -> bv8)
    requires Open(p, s)
    ensures var asked := Step(p, s, Leave(how, x, hi, lo, payload));
            var gone := Step(p, asked, Empty(payload));
            && asked.waitForExit && !gone.waitForExit && gone.mem == s.mem
            && (how == 0 ==> gone.watchdog)
            && (how != 0 ==> !gone.run && gone.appStart == 256 * hi as nat + lo as nat)
            && (!s.waitForExit ==> (how == 0 ==> gone.run == s.run) && (how != 0 ==> gone.watchdog == s.watchdog))
  {
    var c := LeaveAsked(p, s, how, x, hi, lo, payload);
    var asked := Step(p, s, Leave(how, x, hi, lo, payload));
    StepKeeps(p, s, Leave(how, x, hi, lo, payload));
    LeaveCarried(p, asked, how, x, hi, lo, payload);
  }

  // ----- what the host is told

  /** Six bytes: status, three bytes of poll timeout, state, and the index of a text. */
  predicate Told(p: Part, s: State, status: bv8, state: bv8)
    requires StateOk(p, s)
  {
    Reply(p, s, GetStatus(6)) == [status, 0, 0, 0, state, 0] && Reply(p, s, GetState(1)) == [state]
  }

  /** Clearing the status clears it, and not the state; an abort does the reverse. */
  lemma ClearAndAbort(p: Part, s: State, status: bv8, state: bv8, wLength: nat)
    requires Inv(p, s) && Told(p, s, status, state) && wLength < 0x1_0000
    ensures Told(p, Step(p, s, ClrStatus(wLength)), 0, state)
    ensures Told(p, Step(p, s, Abort(wLength)), status, 2)
    ensures Step(p, s, ClrStatus(wLength)).mem == s.mem == Step(p, s, Abort(wLength)).mem
  {
  }

  /** A refused command: write error, error state. */
  lemma RefusedTold(p: Part, s: State, r: Request)
    requires Inv(p, s) && s.secure && r.Dnload? && r.wLength > 0 && RequestOk(r)
    requires r.code != 0x05 && !(r.code == 0x04 && Received(s.sent, r).data[..2] == [0x00, 0xFF])
    ensures Told(p, Step(p, s, r), 3, 10) && Step(p, s, r).mem == s.mem
  {
    var c := CommandStep(p, s, r);
    var d := c.sent.data;
    assert d[..2] == [d[0], d[1]];
    assert Process(p, c) == c.(state := DfuError, status := ErrWrite);
  }

  lemma LowBytes(k: nat)
    requires k < 0x100_0000
    ensures U16(k) % 256 == k % 256 && U16(k) / 256 % 256 == k / 256 % 256 && U8(k / 0x1_0000) == k / 0x1_0000
  {
    var page, w := k / 0x1_0000, k % 0x1_0000;
    assert k == 0x1_0000 * page + w && U16(k) == w;
    DivMod(256, k, 256 * page + w / 256, w % 256);
    DivMod(256, 256 * page + w / 256, page, w / 256);
  }

  /**
   A failed blank check: check error, error state, and in the upload behind it the least address k that is not
   blank, low byte first, its 64 KB page being set.
   */
  lemma NotBlankTold(p: Part, s: State, r: Request, wLength: nat)
    requires Open(p, s) && IsBlankCheck(r) && r.code == 0x03 && (s.state == DnloadIdle ==> Bare(r))
    requires !ApplicationBlank(p, s.mem.flash)
    ensures var c, k := Step(p, s, r), FirstNonBlank(s.mem.flash.bytes, 0, p.boot);
            && k < p.boot && s.mem.flash.bytes[k] != BLANK && (forall i :: 0 <= i < k ==> s.mem.flash.bytes[i] == BLANK)
            && Told(p, c, 5, 10) && c.page64 == k / 0x1_0000
            && Reply(p, c, Upload(wLength)) == [(k % 256) as bv8, (k / 256 % 256) as bv8]
  {
    var d := CommandStep(p, s, r);
    assert Process(p, d) == BlankChecked(p, d);
    LowBytes(FirstNonBlank(s.mem.flash.bytes, 0, p.boot));
  }

  /** A download command and a display command: the states of their transfers. */
  lemma TransferTold(p: Part, s: State, a: seq<bv8>, wLength: nat, payload: nat -> bv8)
    requires Open(p, s) && |a| == 4 && First(a) <= Last(a) && 6 < wLength < 0x1_0000 && s.status == Ok
    ensures Told(p, Step(p, s, Transfer(0x01, 0x00, a, wLength, payload)), 0, 5)
    ensures Told(p, Step(p, s, Transfer(0x03, 0x00, a, 6, payload)), 0, 9)
  {
    SameTransfer(0x01, 0x00, a, wLength, payload);
    SameTransfer(0x03, 0x00, a, 6, payload);
    var m := ProgramStart(p, s, 0x00, a, wLength, payload);
    DownloadingFlash(m, payload);
    var c := CommandStep(p, s, Transfer(0x01, 0x00, a, wLength, payload));
    var u := DisplayStart(p, s, 0x00, a, payload);
    var d := CommandStep(p, s, Transfer(0x03, 0x00, a, 6, payload));
  }
}
