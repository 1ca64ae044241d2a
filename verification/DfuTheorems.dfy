/**
 What whole sequences of requests do: downloads and uploads, the secure mode, erasing and blank checking.
 */
module DfuTheorems {
  import opened Words
  import opened AvrFlash
  import opened AvrEeprom
  import opened DfuFlash
  import opened Dfu

  // ----- what every run keeps

  /** In secure mode nothing is under way. */
  predicate Gated(s: State) {
    s.secure ==> s.state != DnloadIdle && s.state != UploadIdle && !s.waitForExit
  }

  /** A pending exit is asked for by the last command. */
  predicate Pending(s: State) {
    s.waitForExit ==> s.sent.code == COMMAND_WRITE && s.sent.data != [] && s.sent.data[0] == 0x03
  }

  predicate Inv(p: Part, s: State) {
    StateOk(p, s) && TempBlank(s.mem.flash) && Gated(s) && Pending(s)
  }

  /** Every download ends by writing a page. */
  lemma {:induction false} ProgramEndsBlank(f: Flash, pageStart: nat, addr: nat, inPage: nat, data: seq<bv8>)
    requires AvrFlash.Valid(f) && |data| >= 2
    ensures TempBlank(Program(f, pageStart, addr, inPage, data))
    decreases |data|
  {
    ProgramStep(f, pageStart, addr, inPage, data);
    if |data| >= 4 {
      var filled, rest := Fill(f, addr, data[0], data[1]), data[2..];
      var erased := Erase(Write(filled, pageStart), addr + 2);
      ProgramEndsBlank(erased, addr + 2, addr + 2, 0, rest);
      ProgramEndsBlank(filled, pageStart, addr + 2, inPage + 1, rest);
    }
  }

  lemma {:induction false} ProgramBlanks(f: Flash, pageStart: nat, addr: nat, inPage: nat, data: seq<bv8>)
    requires AvrFlash.Valid(f) && TempBlank(f)
    ensures TempBlank(Program(f, pageStart, addr, inPage, data))
  {
    if |data| >= 2 {
      ProgramEndsBlank(f, pageStart, addr, inPage, data);
    }
  }

  lemma ErasedApplication(p: Part, s: State)
    requires StateOk(p, s) && TempBlank(s.mem.flash)
    ensures var f := EraseFrom(s.mem.flash, 0, p.boot);
            && TempBlank(f) && |f.bytes| == |s.mem.flash.bytes|
            && (forall i :: 0 <= i < p.boot ==> f.bytes[i] == BLANK)
            && (forall i :: p.boot <= i < |f.bytes| ==> f.bytes[i] == s.mem.flash.bytes[i])
  {
    PageRange(|s.mem.flash.temp|, 0, 0);
    EraseAll(s.mem.flash, 0, p.boot);
  }

  /** What a command does to a part that is not secure keeps the page buffer blank. */
  lemma OpenProcess(p: Part, s: State)
    requires Inv(p, s) && !s.secure
    ensures TempBlank(Process(p, s).mem.flash) && !Process(p, s).secure && Pending(Process(p, s))
  {
    ErasedApplication(p, s);
  }

  /** What a command does to a secure part: nothing to the memory, or the chip erase. */
  lemma SecureProcess(p: Part, s: State)
    requires Inv(p, s) && s.secure
    ensures Process(p, s).secure ==>
              Process(p, s).mem == s.mem && Gated(Process(p, s)) && Process(p, s).waitForExit == s.waitForExit
    ensures !Process(p, s).secure ==>
              Process(p, s) == s.(secure := false, mem := s.mem.(flash := EraseFrom(s.mem.flash, 0, p.boot)))
  {
    if AllowedWhenSecure(s.sent) && s.sent.code == COMMAND_WRITE {
      assert Process(p, s) == WriteCommand(p, s);
    }
  }

  /** A command leaves the memory as it is, starts no transfer and asks for no exit while the part stays secure. */
  lemma ProcessKeeps(p: Part, s: State)
    requires Inv(p, s)
    ensures Inv(p, Process(p, s)) && (s.secure <== Process(p, s).secure)
    ensures Process(p, s).secure ==> Process(p, s).mem == s.mem
    ensures s.secure && !Process(p, s).secure ==>
              Process(p, s) == s.(secure := false, mem := s.mem.(flash := EraseFrom(s.mem.flash, 0, p.boot)))
  {
    ProcessOk(p, s);
    if s.secure {
      SecureProcess(p, s);
      ErasedApplication(p, s);
    } else {
      OpenProcess(p, s);
    }
  }

  lemma DownloadingKeeps(p: Part, s: State, payload: nat -> bv8)
    requires StateOk(p, s) && TempBlank(s.mem.flash)
    ensures TempBlank(Downloading(s, payload).mem.flash) && Downloading(s, payload).secure == s.secure
    ensures Downloading(s, payload).state == s.state && Downloading(s, payload).waitForExit == s.waitForExit
    ensures Downloading(s, payload).sent == s.sent
  {
    if s.sent.data[0] == 0x00 {
      ProgramBlanks(s.mem.flash, FlashAddress(s), FlashAddress(s), 0, Stream(payload, WordBytes(Remaining(s))));
    }
  }

  lemma FinishedKeeps(p: Part, s: State, r: Request)
    requires Inv(p, s) && r.Dnload?
    ensures Finished(p, s, r).secure == s.secure && TempBlank(Finished(p, s, r).mem.flash) && Gated(Finished(p, s, r))
    ensures Pending(Finished(p, s, r)) && (s.state != DnloadIdle ==> Finished(p, s, r) == s)
  {
    DownloadingKeeps(p, s, r.payload);
  }

  /** While the part is secure no request changes the memory; it stops being secure by erasing the application. */
  lemma DnloadKeeps(p: Part, s: State, r: Request)
    requires Inv(p, s) && RequestOk(r) && r.Dnload?
    ensures Inv(p, AfterDnload(p, s, r)) && (s.secure <== AfterDnload(p, s, r).secure)
    ensures AfterDnload(p, s, r).secure ==> AfterDnload(p, s, r).mem == s.mem
    ensures s.secure && !AfterDnload(p, s, r).secure ==>
              AfterDnload(p, s, r).mem == s.mem.(flash := EraseFrom(s.mem.flash, 0, p.boot))
  {
    ProcessKeeps(p, s);
    var e := Exiting(p, s);
    if r.wLength > 0 {
      var c := e.(sent := Received(e.sent, r));
      assert Inv(p, c);
      ProcessKeeps(p, c);
      FinishedKeeps(p, Process(p, c), r);
    } else {
      FinishedKeeps(p, e, r);
    }
  }

  lemma StepKeeps(p: Part, s: State, r: Request)
    requires Inv(p, s) && RequestOk(r)
    ensures Inv(p, Step(p, s, r)) && (s.secure <== Step(p, s, r).secure)
    ensures Step(p, s, r).secure ==> Step(p, s, r).mem == s.mem
    ensures s.secure && !Step(p, s, r).secure ==>
              Step(p, s, r).mem == s.mem.(flash := EraseFrom(s.mem.flash, 0, p.boot))
  {
    var sized := s.(sent := s.sent.(size := r.wLength));
    assert Inv(p, sized);
    if r.Dnload? {
      DnloadKeeps(p, sized, r);
    }
  }

  /** Carrying out a pending exit changes only what the exit is about. */
  lemma ExitingOnly(p: Part, s: State)
    requires Inv(p, s)
    ensures var e := Exiting(p, s);
            Inv(p, e) && e == s.(waitForExit := false, watchdog := e.watchdog, appStart := e.appStart, run := e.run)
  {
    if s.waitForExit {
      assert Process(p, s) == WriteCommand(p, s);
    }
  }

  /** A download request with a command: the state c in which the command is carried out, and what becomes of it. */
  lemma CommandStep(p: Part, s: State, r: Request) returns (c: State)
    requires Inv(p, s) && RequestOk(r) && r.Dnload? && r.wLength > 0
    ensures Inv(p, c) && !c.waitForExit && c.sent == Received(s.sent, r)
    ensures c == s.(waitForExit := false, sent := c.sent, watchdog := c.watchdog, appStart := c.appStart, run := c.run)
    ensures !s.waitForExit ==> c == s.(sent := c.sent)
    ensures StateOk(p, Process(p, c)) && Step(p, s, r) == Finished(p, Process(p, c), r)
  {
    var sized := s.(sent := s.sent.(size := r.wLength));
    ExitingOnly(p, sized);
    var e := Exiting(p, sized);
    assert Received(e.sent, r) == Received(s.sent, r);
    c := e.(sent := Received(e.sent, r));
    ProcessOk(p, c);
    assert AfterDnload(p, sized, r) == Finished(p, Process(p, c), r);
  }

  predicate RequestsOk(rs: seq<Request>) {
    forall i :: 0 <= i < |rs| ==> RequestOk(rs[i])
  }

  /**
   The secure gate, over every run: as long as the part is secure, no transfer is under way and the memory is
   as it was at the start.
   */
  lemma {:induction false} SecureRun(p: Part, s: State, rs: seq<Request>)
    requires Inv(p, s) && RequestsOk(rs)
    ensures Inv(p, Run(p, s, rs))
    ensures Run(p, s, rs).secure ==>
              s.secure && Run(p, s, rs).mem == s.mem && Run(p, s, rs).state != DnloadIdle &&
                Run(p, s, rs).state != UploadIdle
    decreases |rs|
  {
    if rs != [] {
      StepKeeps(p, s, rs[0]);
      SecureRun(p, Step(p, s, rs[0]), rs[1..]);
    }
  }

  /** The number of requests up to the one that ends the secure mode. */
  function Unlocking(p: Part, s: State, rs: seq<Request>): (k: nat)
    requires StateOk(p, s) && RequestsOk(rs)
    ensures k <= |rs| && (k == 0 ==> !s.secure || rs == [])
    decreases |rs|
  {
    if rs == [] || !s.secure then 0 else 1 + Unlocking(p, Step(p, s, rs[0]), rs[1..])
  }

  lemma RunOne(p: Part, s: State, rs: seq<Request>, k: nat)
    requires StateOk(p, s) && RequestsOk(rs) && 0 < k <= |rs|
    ensures Run(p, s, rs[..k]) == Run(p, Step(p, s, rs[0]), rs[1..][..k - 1])
  {
    assert rs[..k][1..] == rs[1..][..k - 1];
  }

  /** A part leaves the secure mode only in a request after which its application is blank. */
  lemma {:induction false} SecureFalls(p: Part, s: State, rs: seq<Request>)
    requires Inv(p, s) && RequestsOk(rs) && s.secure && !Run(p, s, rs).secure
    ensures var k := Unlocking(p, s, rs);
            && 0 < k && Run(p, s, rs[..k - 1]).secure && !Run(p, s, rs[..k]).secure
            && Run(p, s, rs[..k]).mem == s.mem.(flash := EraseFrom(s.mem.flash, 0, p.boot))
            && forall i :: 0 <= i < p.boot ==> Run(p, s, rs[..k]).mem.flash.bytes[i] == BLANK
    decreases |rs|
  {
    var next, k := Step(p, s, rs[0]), Unlocking(p, s, rs);
    StepKeeps(p, s, rs[0]);
    ErasedApplication(p, s);
    RunOne(p, s, rs, k);
    if next.secure {
      SecureFalls(p, next, rs[1..]);
      RunOne(p, s, rs, k - 1);
    }
  }

  // ----- a download and an upload

  /** A command with a start and an end address. */
  function Addressed(code: bv8, memory: bv8, a: seq<bv8>, wLength: nat, payload: nat -> bv8): (r: Request)
    requires |a| == 4
  {
    Dnload(wLength, code, [memory] + a, payload)
  }

  function From(a: seq<bv8>): (w: nat)
    requires |a| == 4
  {
    Wide(a[0], a[1])
  }

  function To(a: seq<bv8>): (w: nat)
    requires |a| == 4
  {
    Wide(a[2], a[3])
  }

  /** The bytes from the start address to the end address, both included, over the end of the 64 KB if need be. */
  function Asked(a: seq<bv8>): (n: nat)
    requires |a| == 4
    ensures 0 < n <= 0x1_0000
  {
    if From(a) <= To(a) then To(a) + 1 - From(a) else To(a) + 0x1_0001 - From(a)
  }

  lemma SixteenBitCount(start: nat, end: nat)
    requires start < 0x1_0000 && end < 0x1_0000
    ensures U16(end + 0x1_0001 - start) ==
              if end + 1 == start || (start == 0 && end == 0xFFFF) then 0
              else if start <= end then end + 1 - start else end + 0x1_0001 - start
  {
  }

  /** The sixteen-bit count of that: nothing of a full 64 KB. */
  function Counted(a: seq<bv8>): (n: nat)
    requires |a| == 4
    ensures n == if Asked(a) == 0x1_0000 then 0 else Asked(a)
  {
    SixteenBitCount(From(a), To(a));
    U16(To(a) + 0x1_0001 - From(a))
  }

  /** The whole words of it. */
  function Size(a: seq<bv8>): (n: nat)
    requires |a| == 4
    ensures n % 2 == 0
  {
    WordBytes(Counted(a))
  }

  function Place(s: State, a: seq<bv8>): (x: nat)
    requires |a| == 4
  {
    From(a) + 0x1_0000 * s.page64
  }

  /** A part that carries out all commands. */
  predicate Open(p: Part, s: State) {
    Inv(p, s) && !s.secure
  }

  lemma ReceivedAddressed(c: Command, code: bv8, memory: bv8, a: seq<bv8>, wLength: nat, payload: nat -> bv8)
    requires |c.data| == 5 && |a| == 4 && wLength >= 6
    ensures Received(c, Addressed(code, memory, a, wLength, payload)) == Command(code, [memory] + a, wLength - 6)
    ensures Wide(([memory] + a)[1], ([memory] + a)[2]) == From(a) && Wide(([memory] + a)[3], ([memory] + a)[4]) == To(a)
  {
  }

  lemma LoadedAddresses(c: State, memory: bv8, a: seq<bv8>)
    requires |a| == 4 && c.sent.data == [memory] + a
    ensures var l := Loaded(c);
            && l.start == From(a) && l.end == To(a)
            && Remaining(l) == Counted(a) && FlashAddress(l) == Place(c, a)
  {
  }

  lemma DownloadingFlash(m: State, payload: nat -> bv8)
    requires AvrFlash.Valid(m.mem.flash) && |m.mem.eeprom| == EEPROM_SPACE && m.start < 0x1_0000 && |m.sent.data| == 5
    requires m.sent.data[0] == 0x00
    ensures Downloading(m, payload) ==
            m.(mem := m.mem.(flash := Program(m.mem.flash, FlashAddress(m), FlashAddress(m), 0,
                                              Stream(payload, WordBytes(Remaining(m))))), start := m.end)
  {
  }

  lemma DownloadingEeprom(m: State, payload: nat -> bv8)
    requires AvrFlash.Valid(m.mem.flash) && |m.mem.eeprom| == EEPROM_SPACE && m.start < 0x1_0000 && |m.sent.data| == 5
    requires m.sent.data[0] == 0x01
    ensures Downloading(m, payload).mem ==
            m.mem.(eeprom := EepromStored(m.mem.eeprom, m.start, Stream(payload, Remaining(m))))
  {
  }

  lemma FinishedDownload(p: Part, m: State, r: Request)
    requires StateOk(p, m) && r.Dnload? && m.state == DnloadIdle && m.sent.size > 0
    ensures Finished(p, m, r) == Downloading(m, r.payload)
  {
  }

  lemma ProgramLoaded(c: State, memory: bv8, a: seq<bv8>) returns (m: State)
    requires |a| == 4 && c.sent.data == [memory] + a && (memory == 0x00 || memory == 0x01)
    requires AvrFlash.Valid(c.mem.flash) && c.start < 0x1_0000
    ensures m == MemProg(c) && m.state == DnloadIdle && m.sent == c.sent && m.page64 == c.page64
    ensures m.start == From(a) && m.end == To(a) && Remaining(m) == Counted(a) && FlashAddress(m) == Place(c, a)
    ensures m.mem == if memory == 0x00 then c.mem.(flash := Erase(c.mem.flash, Place(c, a))) else c.mem
  {
    LoadedAddresses(c, memory, a);
    m := MemProg(c);
  }

  /** A download command: the state in which the data behind it are stored. */
  lemma ProgramStart(p: Part, s: State, memory: bv8, a: seq<bv8>, wLength: nat, payload: nat -> bv8) returns (m: State)
    requires Open(p, s) && |a| == 4 && 6 < wLength < 0x1_0000 && (memory == 0x00 || memory == 0x01)
    ensures StateOk(p, m) && m.state == DnloadIdle && m.sent.data == [memory] + a && m.page64 == s.page64
    ensures m.start == From(a) && m.end == To(a) && Remaining(m) == Counted(a) && FlashAddress(m) == Place(s, a)
    ensures m.mem == if memory == 0x00 then s.mem.(flash := Erase(s.mem.flash, Place(s, a))) else s.mem
    ensures Step(p, s, Addressed(COMMAND_PROG_START, memory, a, wLength, payload)) == Downloading(m, payload)
  {
    var r := Addressed(COMMAND_PROG_START, memory, a, wLength, payload);
    ReceivedAddressed(s.sent, COMMAND_PROG_START, memory, a, wLength, payload);
    var c := CommandStep(p, s, r);
    m := ProgramLoaded(c, memory, a);
    assert Process(p, c) == m;
    FinishedDownload(p, m, r);
  }

  /** A flash download command and its firmware, in one request. */
  lemma DownloadStep(p: Part, s: State, a: seq<bv8>, wLength: nat, payload: nat -> bv8)
    requires Open(p, s) && |a| == 4 && 6 < wLength < 0x1_0000
    ensures var s' := Step(p, s, Addressed(COMMAND_PROG_START, 0x00, a, wLength, payload));
            && s'.mem == s.mem.(flash := Download(s.mem.flash, Place(s, a), Stream(payload, Size(a))))
            && s'.state == DnloadIdle && s'.page64 == s.page64 && s'.start == s'.end == To(a)
  {
    var m := ProgramStart(p, s, 0x00, a, wLength, payload);
    DownloadingFlash(m, payload);
  }

  lemma EvenSum(x: nat, page: nat)
    requires x % 2 == 0
    ensures (x + 0x1_0000 * page) % 2 == 0
  {
  }

  lemma EvenPlace(s: State, a: seq<bv8>)
    requires |a| == 4 && From(a) % 2 == 0
    ensures Place(s, a) % 2 == 0 && Size(a) % 2 == 0
  {
    EvenSum(From(a), s.page64);
  }

  /**
   A download from the start of a page on leaves exactly the words of the stream between the two addresses,
   the rest of the pages it touches blank, and everything else as it was.
   */
  lemma DownloadResult(p: Part, s: State, a: seq<bv8>, wLength: nat, payload: nat -> bv8)
    requires Open(p, s) && |a| == 4 && 6 < wLength < 0x1_0000 && Size(a) > 0
    requires From(a) % 2 == 0 && PlaceOk(|s.mem.flash.temp|, Place(s, a), Size(a))
    ensures var s' := Step(p, s, Addressed(COMMAND_PROG_START, 0x00, a, wLength, payload));
            && s'.mem.eeprom == s.mem.eeprom
            && Downloaded(s'.mem.flash, s.mem.flash, Place(s, a), Stream(payload, Size(a)))
  {
    var x, data := Place(s, a), Stream(payload, Size(a));
    DownloadStep(p, s, a, wLength, payload);
    EvenPlace(s, a);
    assert |data| == Size(a) && data != [];
    DownloadRight(s.mem.flash, x, data);
  }

  function Padded(data: seq<bv8>): (payload: nat -> bv8) {
    (i: nat) => if i < |data| then data[i] else 0
  }

  /** The bytes asked for decide, whole words or not. */
  lemma DownloadAsked(f: Flash, x: nat, a: seq<bv8>, payload: nat -> bv8)
    requires AvrFlash.Valid(f) && |a| == 4 && Asked(a) < 0x1_0000
    ensures Download(f, x, Stream(payload, Size(a))) == Download(f, x, Stream(payload, Asked(a)))
  {
    WholeWords(Erase(f, x), x, x, 0, Stream(payload, Asked(a)));
    assert Stream(payload, Asked(a))[..Size(a)] == Stream(payload, Size(a));
  }

  /** The memory behind a download request holds all that was asked for. */
  ghost predicate HoldsAll(p: Part, s: State, a: seq<bv8>, wLength: nat, payload: nat -> bv8)
    requires Open(p, s) && |a| == 4 && 6 < wLength < 0x1_0000
  {
    InPlace(Step(p, s, Addressed(COMMAND_PROG_START, 0x00, a, wLength, payload)).mem.flash, Place(s, a),
            Stream(payload, Asked(a)))
  }

  /** A full 64 KB is counted as nothing. */
  lemma FullPageLost(p: Part, s: State, a: seq<bv8>, wLength: nat)
    requires Open(p, s) && |a| == 4 && 6 < wLength < 0x1_0000 && Asked(a) == 0x1_0000
    requires Place(s, a) + Asked(a) <= |s.mem.flash.bytes|
    ensures !HoldsAll(p, s, a, wLength, Padded([]))
  {
    var x, f := Place(s, a), s.mem.flash;
    DownloadStep(p, s, a, wLength, Padded([]));
    assert Download(f, x, Stream(Padded([]), 0)) == Erase(f, x);
    assert Erase(f, x).bytes[x..x + Asked(a)][0] == BLANK != Stream(Padded([]), Asked(a))[0];
  }

  /**
   Which downloads are right for every stream: those of less than 64 KB that ask for an even number of bytes,
   from an even address, from the start of a page on or within one page.
   */
  lemma DownloadRightIff(p: Part, s: State, a: seq<bv8>, wLength: nat)
    requires Open(p, s) && |a| == 4 && 6 < wLength < 0x1_0000
    requires Place(s, a) + Asked(a) <= |s.mem.flash.bytes|
    ensures (forall payload :: HoldsAll(p, s, a, wLength, payload))
            <==> Asked(a) < 0x1_0000 && DownloadOk(|s.mem.flash.temp|, Place(s, a), Asked(a))
  {
    var n, x := Asked(a), Place(s, a);
    if n == 0x1_0000 {
      FullPageLost(p, s, a, wLength);
    } else {
      DownloadExact(s.mem.flash, x, n);
      if DownloadOk(|s.mem.flash.temp|, x, n) {
        forall payload ensures HoldsAll(p, s, a, wLength, payload) {
          DownloadStep(p, s, a, wLength, payload);
          DownloadAsked(s.mem.flash, x, a, payload);
          assert |Stream(payload, n)| == n;
        }
      } else {
        var data := DownloadLoses(s.mem.flash, x, n);
        DownloadStep(p, s, a, wLength, Padded(data));
        DownloadAsked(s.mem.flash, x, a, Padded(data));
        assert Stream(Padded(data), n) == data;
        assert !HoldsAll(p, s, a, wLength, Padded(data));
      }
    }
  }

  /** A display command: the state in which the upload is asked for. */
  lemma DisplayStart(p: Part, s: State, memory: bv8, a: seq<bv8>, payload: nat -> bv8) returns (u: State)
    requires Open(p, s) && |a| == 4 && (memory == 0x00 || memory == 0x02)
    ensures u == Step(p, s, Addressed(COMMAND_DISP_DATA, memory, a, 6, payload))
    ensures u.state == UploadIdle && u.sent.data == [memory] + a && u.mem == s.mem
    ensures u.start == From(a) && u.end == To(a) && Remaining(u) == Counted(a) && FlashAddress(u) == Place(s, a)
  {
    var r := Addressed(COMMAND_DISP_DATA, memory, a, 6, payload);
    ReceivedAddressed(s.sent, COMMAND_DISP_DATA, memory, a, 6, payload);
    var c := CommandStep(p, s, r);
    LoadedAddresses(c, memory, a);
    assert Process(p, c) == MemRead(p, c) == Loaded(c).(state := UploadIdle);
    u := Step(p, s, r);
  }

  /** A display command and the upload behind it read what is between the two addresses. */
  lemma DisplayUpload(p: Part, s: State, a: seq<bv8>, payload: nat -> bv8, wLength: nat)
    requires Open(p, s) && |a| == 4 && wLength < 0x1_0000
    ensures var shown := Step(p, s, Addressed(COMMAND_DISP_DATA, 0x00, a, 6, payload));
            && shown.mem == s.mem
            && Reply(p, shown, Upload(wLength)) == FlashRead(s.mem.flash, Place(s, a), Size(a))
            && Step(p, shown, Upload(wLength)).mem == s.mem && Step(p, shown, Upload(wLength)).state == DfuIdle
  {
    var u := DisplayStart(p, s, 0x00, a, payload);
  }

  lemma ReadDownloaded(r: Flash, f: Flash, x: nat, data: seq<bv8>)
    requires AvrFlash.Valid(f) && data != [] && Downloaded(r, f, x, data) && x + |data| <= |f.bytes|
    ensures FlashRead(r, x, |data|) == data
  {
    forall i | 0 <= i < |data| ensures FlashRead(r, x, |data|)[i] == data[i] {
      assert FlashRead(r, x, |data|)[i] == FlashByte(r, x + i);
      assert r.bytes[x + i] == data[x + i - x];
    }
  }

  lemma OpenAfterDownload(p: Part, s: State, memory: bv8, a: seq<bv8>, wLength: nat, payload: nat -> bv8)
    requires Open(p, s) && |a| == 4 && 6 < wLength < 0x1_0000
    ensures Open(p, Step(p, s, Addressed(COMMAND_PROG_START, memory, a, wLength, payload)))
  {
    var r := Addressed(COMMAND_PROG_START, memory, a, wLength, payload);
    ReceivedAddressed(s.sent, COMMAND_PROG_START, memory, a, wLength, payload);
    StepKeeps(p, s, r);
    var c := CommandStep(p, s, r);
    DownloadingKeeps(p, Process(p, c), payload);
  }

  /** What is downloaded is what is uploaded. */
  lemma DownloadUpload(p: Part, s: State, a: seq<bv8>, wLength: nat, payload: nat -> bv8, wLength': nat)
    requires Open(p, s) && |a| == 4 && 6 < wLength < 0x1_0000 && wLength' < 0x1_0000 && Size(a) > 0
    requires From(a) % 2 == 0 && PlaceOk(|s.mem.flash.temp|, Place(s, a), Size(a))
    requires Place(s, a) + Size(a) <= |s.mem.flash.bytes|
    ensures var stored := Step(p, s, Addressed(COMMAND_PROG_START, 0x00, a, wLength, payload));
            var shown := Step(p, stored, Addressed(COMMAND_DISP_DATA, 0x00, a, 6, payload));
            Reply(p, shown, Upload(wLength')) == Stream(payload, Size(a))
  {
    var r := Addressed(COMMAND_PROG_START, 0x00, a, wLength, payload);
    var stored := Step(p, s, r);
    StepKeeps(p, s, r);
    DownloadStep(p, s, a, wLength, payload);
    DownloadResult(p, s, a, wLength, payload);
    OpenAfterDownload(p, s, 0x00, a, wLength, payload);
    DisplayUpload(p, stored, a, payload, wLength');
    ReadDownloaded(stored.mem.flash, s.mem.flash, Place(s, a), Stream(payload, Size(a)));
    assert Place(stored, a) == Place(s, a);
  }

  // ----- the same for the EEPROM

  lemma EepromDownloadStep(p: Part, s: State, a: seq<bv8>, wLength: nat, payload: nat -> bv8)
    requires Open(p, s) && |a| == 4 && 6 < wLength < 0x1_0000
    ensures Step(p, s, Addressed(COMMAND_PROG_START, 0x01, a, wLength, payload)).mem ==
              s.mem.(eeprom := EepromStored(s.mem.eeprom, From(a), Stream(payload, Counted(a))))
  {
    var m := ProgramStart(p, s, 0x01, a, wLength, payload);
    DownloadingEeprom(m, payload);
  }

  lemma EepromDisplayUpload(p: Part, s: State, a: seq<bv8>, payload: nat -> bv8, wLength: nat)
    requires Open(p, s) && |a| == 4 && wLength < 0x1_0000
    ensures var shown := Step(p, s, Addressed(COMMAND_DISP_DATA, 0x02, a, 6, payload));
            && shown.mem == s.mem
            && Reply(p, shown, Upload(wLength)) == EepromRead(s.mem.eeprom, From(a), Counted(a))
            && Step(p, shown, Upload(wLength)).mem == s.mem && Step(p, shown, Upload(wLength)).state == DfuIdle
  {
    var u := DisplayStart(p, s, 0x02, a, payload);
  }

  /**
   EEPROM bytes downloaded are the bytes uploaded, from any address and over the end of the address space, and
   the flash is as it was: all that were asked for if and only if these are fewer than 64 KB.
   */
  lemma EepromDownloadUpload(p: Part, s: State, a: seq<bv8>, wLength: nat, payload: nat -> bv8, wLength': nat)
    requires Open(p, s) && |a| == 4 && 6 < wLength < 0x1_0000 && wLength' < 0x1_0000
    ensures var stored := Step(p, s, Addressed(COMMAND_PROG_START, 0x01, a, wLength, payload));
            var shown := Step(p, stored, Addressed(COMMAND_DISP_DATA, 0x02, a, 6, payload));
            && stored.mem.flash == s.mem.flash
            && (Reply(p, shown, Upload(wLength')) == Stream(payload, Asked(a)) <==> Asked(a) < 0x1_0000)
  {
    EepromDownloadStep(p, s, a, wLength, payload);
    OpenAfterDownload(p, s, 0x01, a, wLength, payload);
    EepromDisplayUpload(p, Step(p, s, Addressed(COMMAND_PROG_START, 0x01, a, wLength, payload)), a, payload, wLength');
    EepromRoundTrip(s.mem.eeprom, From(a), Stream(payload, Counted(a)));
  }

  // ----- the information tables

  /** A read command: which table, and the index in it. */
  function ReadRequest(table: bv8, index: bv8, payload: nat -> bv8): (r: Request) {
    Dnload(3, COMMAND_READ, [table, index], payload)
  }

  /** The byte a read command asks for: version and identity from index 0, the signature from index 0x30. */
  function TableByte(p: Part, table: bv8, index: bv8): (b: bv8)
    requires |p.signature| == 3
  {
    if table == 0x00 then Entry(p, [0x20, 0xDC, 0xFB], index as int) else Entry(p, p.signature, index as int - 0x30)
  }

  lemma ReadProcessed(p: Part, c: State, table: bv8, index: bv8)
    requires StateOk(p, c) && (table == 0x00 || table == 0x01)
    requires c.sent.code == COMMAND_READ && c.sent.data[0] == table && c.sent.data[1] == index
    ensures Process(p, c) == c.(response := TableByte(p, table, index))
  {
    assert Process(p, c) == ReadCommand(p, c);
  }

  lemma ReadRequestStep(p: Part, s: State, table: bv8, index: bv8, payload: nat -> bv8)
    requires Inv(p, s) && (table == 0x00 || table == 0x01)
    ensures var s' := Step(p, s, ReadRequest(table, index, payload));
            && s'.response == TableByte(p, table, index) && s'.sent.data[0] == table
            && s'.state == if s.state == DnloadIdle then DfuIdle else s.state
  {
    var c := CommandStep(p, s, ReadRequest(table, index, payload));
    ReadProcessed(p, c, table, index);
  }

  /** An upload of flash is never a single byte. */
  lemma EvenReply(s: State)
    requires |s.mem.eeprom| == EEPROM_SPACE && s.start < 0x1_0000 && |s.sent.data| == 5
    requires s.state == UploadIdle && s.sent.data[0] == 0x00
    ensures |Uploaded(s)| % 2 == 0
  {
  }

  /**
   A read command and an upload, secure part or not, return the byte of the table, except in two states: while
   an upload is under way, and, for the signature, after an error, when the upload is taken for that of a failed
   blank check.
   */
  lemma ReadUpload(p: Part, s: State, table: bv8, index: bv8, payload: nat -> bv8, wLength: nat)
    requires Inv(p, s) && (table == 0x00 || table == 0x01) && wLength < 0x1_0000
    ensures var s' := Step(p, s, ReadRequest(table, index, payload));
            Reply(p, s', Upload(wLength)) == [TableByte(p, table, index)]
            <==> s.state != UploadIdle && !(s.state == DfuError && table == 0x01)
  {
    ReadRequestStep(p, s, table, index, payload);
    var s' := Step(p, s, ReadRequest(table, index, payload));
    if s'.state == UploadIdle && table == 0x00 {
      EvenReply(s');
    }
  }

  // ----- erasing and the blank check

  /** A request with the blank check command. */
  predicate IsBlankCheck(r: Request) {
    && r.Dnload? && r.wLength > 0 && RequestOk(r)
    && r.code == COMMAND_DISP_DATA && r.params != [] && r.params[0] == 0x01
  }

  predicate IsChipErase(r: Request) {
    && r.Dnload? && r.wLength > 0 && RequestOk(r)
    && r.code == COMMAND_WRITE && |r.params| >= 2 && r.params[0] == 0x00 && r.params[1] == 0xFF
  }

  /** Nothing follows the parameters. */
  predicate Bare(r: Request) {
    r.Dnload? && r.wLength == |r.params| + 1
  }

  predicate ApplicationBlank(p: Part, f: Flash)
    requires p.boot <= |f.bytes|
  {
    forall i :: 0 <= i < p.boot ==> f.bytes[i] == BLANK
  }

  lemma AddressOf(k: nat)
    requires k < 0x100_0000
    ensures U16(k) + 0x1_0000 * U8(k / 0x1_0000) == k
  {
  }

  /**
   A failing blank check points at the least address that is not blank; a passing one changes nothing but that a
   download under way is over.
   */
  lemma BlankCheckFinds(p: Part, s: State, r: Request)
    requires Open(p, s) && IsBlankCheck(r) && (s.state == DnloadIdle ==> Bare(r))
    ensures var c := Step(p, s, r);
            c.mem == s.mem && !c.secure &&
            if ApplicationBlank(p, s.mem.flash) then
              && c.state == (if s.state == DnloadIdle then DfuIdle else s.state)
              && c.status == s.status && c.start == s.start && c.page64 == s.page64
            else
              && c.state == DfuError && c.status == ErrCheckErased && FlashAddress(c) < p.boot
              && s.mem.flash.bytes[FlashAddress(c)] != BLANK
              && forall i :: 0 <= i < FlashAddress(c) ==> s.mem.flash.bytes[i] == BLANK
  {
    var c := CommandStep(p, s, r);
    assert Process(p, c) == BlankChecked(p, c);
    var k := FirstNonBlank(s.mem.flash.bytes, 0, p.boot);
    if k < p.boot {
      AddressOf(k);
    }
  }

  /** With data behind its parameters, in the middle of a download, it is no blank check alone: the data go on. */
  lemma BlankCheckData(p: Part, s: State, r: Request)
    requires Open(p, s) && IsBlankCheck(r) && s.state == DnloadIdle && !Bare(r)
    ensures var c := Step(p, s, r);
            c.mem.flash == s.mem.flash && c.state == if ApplicationBlank(p, s.mem.flash) then DnloadIdle else DfuError
  {
    var c := CommandStep(p, s, r);
    assert Process(p, c) == BlankChecked(p, c);
  }

  /** A secure part refuses it. */
  lemma BlankCheckSecure(p: Part, s: State, r: Request)
    requires Inv(p, s) && s.secure && IsBlankCheck(r)
    ensures Step(p, s, r).state == DfuError
  {
    var c := CommandStep(p, s, r);
  }

  /**
   When the host is told that the application is blank: the part is not secure, the application is blank, and
   the loader was idle, or had a download begun that the check carries no more data of. In particular an error
   state outlasts the check of a blank application.
   */
  lemma BlankCheckExact(p: Part, s: State, r: Request)
    requires Inv(p, s) && IsBlankCheck(r)
    ensures Step(p, s, r).state == DfuIdle
            <==> !s.secure && ApplicationBlank(p, s.mem.flash) &&
                 (s.state == DfuIdle || (s.state == DnloadIdle && Bare(r)))
    ensures Step(p, s, r).state == DfuError <==> s.secure || !ApplicationBlank(p, s.mem.flash) || s.state == DfuError
  {
    if s.secure {
      BlankCheckSecure(p, s, r);
    } else if s.state == DnloadIdle && !Bare(r) {
      BlankCheckData(p, s, r);
    } else {
      BlankCheckFinds(p, s, r);
    }
  }

  lemma ChipEraseStep(p: Part, s: State, r: Request)
    requires Inv(p, s) && IsChipErase(r) && (s.state == DnloadIdle ==> Bare(r))
    ensures var e := Step(p, s, r);
            && Open(p, e) && e.mem == s.mem.(flash := EraseFrom(s.mem.flash, 0, p.boot))
            && ApplicationBlank(p, e.mem.flash)
            && e.state == (if s.state == DnloadIdle then DfuIdle else s.state)
            && e.status == s.status && e.start == s.start
  {
    var c := CommandStep(p, s, r);
    assert Process(p, c) == WriteCommand(p, c);
    StepKeeps(p, s, r);
    ErasedApplication(p, s);
  }

  /**
   A chip erase opens the part and blanks the application; and the blank check behind it passes if and only if
   the loader was idle or a download begun, not in the error state or in an upload.
   */
  lemma EraseThenBlankCheck(p: Part, s: State, erase: Request, check: Request)
    requires Inv(p, s) && IsChipErase(erase) && Bare(erase) && IsBlankCheck(check)
    ensures var erased := Step(p, s, erase);
            && Open(p, erased) && erased.mem == s.mem.(flash := EraseFrom(s.mem.flash, 0, p.boot))
            && ApplicationBlank(p, erased.mem.flash)
            && (Step(p, erased, check).state == DfuIdle <==> s.state == DfuIdle || s.state == DnloadIdle)
  {
    ChipEraseStep(p, s, erase);
    BlankCheckExact(p, Step(p, s, erase), check);
  }

  /** An abort first makes it pass always. */
  lemma AbortEraseBlankCheck(p: Part, s: State, wLength: nat, erase: Request, check: Request)
    requires Inv(p, s) && wLength < 0x1_0000 && IsChipErase(erase) && Bare(erase) && IsBlankCheck(check)
    ensures Step(p, Step(p, Step(p, s, Abort(wLength)), erase), check).state == DfuIdle
  {
    StepKeeps(p, s, Abort(wLength));
    EraseThenBlankCheck(p, Step(p, s, Abort(wLength)), erase, check);
  }

  /**
   How it fails: a secure part refuses a command, is erased and checked. The application is blank, and yet the
   part is in the error state of the refused command, and an upload reports an address as not blank.
   */
  lemma StaleError(p: Part, s: State, refused: Request, erase: Request, check: Request, wLength: nat)
    requires Inv(p, s) && s.secure && refused.Dnload? && refused.wLength > 0 && RequestOk(refused)
    requires !AllowedWhenSecure(Received(s.sent, refused))
    requires IsChipErase(erase) && Bare(erase) && IsBlankCheck(check)
    ensures var checked := Step(p, Step(p, Step(p, s, refused), erase), check);
            && ApplicationBlank(p, checked.mem.flash)
            && checked.state == DfuError && checked.status == ErrWrite
            && Reply(p, checked, Upload(wLength)) == [Low(s.start), High(s.start)]
  {
    var c := CommandStep(p, s, refused);
    var r := Step(p, s, refused);
    assert r == c.(state := DfuError, status := ErrWrite);
    StepKeeps(p, s, refused);
    ChipEraseStep(p, r, erase);
    var d := CommandStep(p, Step(p, r, erase), check);
    BlankCheckFinds(p, Step(p, r, erase), check);
  }
}
