/**
 The DFU bootloader: the requests of the host, the commands they carry, and the globals they change. The
 methods of the class are proved equal to the functions beside it.
 */
module Dfu {
  import opened Words
  import opened AvrFlash
  import opened AvrEeprom
  import opened DfuFlash

  datatype DfuState = DfuIdle | DnloadIdle | UploadIdle | DfuError

  datatype Status = Ok | ErrWrite | ErrCheckErased

  /** The bytes these are sent as. */
  function StateCode(s: DfuState): (b: bv8) {
    match s
    case DfuIdle => 2
    case DnloadIdle => 5
    case UploadIdle => 9
    case DfuError => 10
  }

  function StatusCode(s: Status): (b: bv8) {
    match s
    case Ok => 0
    case ErrWrite => 3
    case ErrCheckErased => 5
  }

  const COMMAND_PROG_START: bv8 := 0x01
  const COMMAND_DISP_DATA: bv8 := 0x03
  const COMMAND_WRITE: bv8 := 0x04
  const COMMAND_READ: bv8 := 0x05
  const COMMAND_CHANGE_BASE_ADDR: bv8 := 0x06

  /**
   What a build and a part fix: where the bootloader starts, the signature, and what an index behind the end
   of the two information tables would read.
   */
  datatype Part = Part(boot: nat, signature: seq<bv8>, stray: int -> bv8)

  datatype Memory = Memory(flash: Flash, eeprom: seq<bv8>)

  /** The command as it was last sent: later requests that carry fewer parameters leave the rest as it is. */
  datatype Command = Command(code: bv8, data: seq<bv8>, size: nat)

  datatype State = State(
    secure: bool, run: bool, waitForExit: bool, watchdog: bool, state: DfuState, status: Status,
    sent: Command, response: bv8, appStart: nat, page64: nat, start: nat, end: nat, mem: Memory)

  /** A request of the host; `payload` is the data behind the parameters and the filler, as far as it is read. */
  datatype Request =
    | Dnload(wLength: nat, code: bv8, params: seq<bv8>, payload: nat -> bv8)
    | Upload(wLength: nat)
    | GetStatus(wLength: nat)
    | ClrStatus(wLength: nat)
    | GetState(wLength: nat)
    | Abort(wLength: nat)
    | Unknown(wLength: nat)

  predicate PartOk(p: Part, P: nat) {
    |p.signature| == 3 && p.boot <= 0x100_0000 && Aligned(P, p.boot)
  }

  predicate StateOk(p: Part, s: State) {
    && AvrFlash.Valid(s.mem.flash) && PartOk(p, |s.mem.flash.temp|) && p.boot <= |s.mem.flash.bytes|
    && |s.mem.eeprom| == EEPROM_SPACE && |s.sent.data| == 5
    && s.start < 0x1_0000 && s.end < 0x1_0000 && s.page64 < 0x100
  }

  /** At most five parameters are kept, and they are part of the data stage. */
  predicate RequestOk(r: Request) {
    r.wLength < 0x1_0000 && (r.Dnload? ==> |r.params| <= 5 && (r.wLength > 0 ==> |r.params| + 1 <= r.wLength))
  }

  // ----- the commands

  /** What no command changes: the last command itself, the sizes of the memories, the widths of the variables. */
  predicate Kept(s: State, r: State) {
    && r.sent == s.sent && |r.mem.eeprom| == |s.mem.eeprom|
    && |r.mem.flash.bytes| == |s.mem.flash.bytes| && |r.mem.flash.temp| == |s.mem.flash.temp|
    && r.start < 0x1_0000 && (r.end == s.end || r.end < 0x1_0000) && (r.page64 == s.page64 || r.page64 < 0x100)
  }

  function Loaded(s: State): (r: State)
    requires |s.sent.data| == 5
  {
    s.(start := Wide(s.sent.data[1], s.sent.data[2]), end := Wide(s.sent.data[3], s.sent.data[4]))
  }

  /** The 64 KB page and the address in it, together. */
  function FlashAddress(s: State): (a: nat) {
    s.start + 0x1_0000 * s.page64
  }

  function MemProg(s: State): (r: State)
    requires |s.sent.data| == 5 && AvrFlash.Valid(s.mem.flash) && s.start < 0x1_0000
    ensures Kept(s, r)
  {
    var l := Loaded(s);
    if s.sent.data[0] == 0x00 then
      l.(state := DnloadIdle, mem := l.mem.(flash := Erase(l.mem.flash, FlashAddress(l))))
    else if s.sent.data[0] == 0x01 then l.(state := DnloadIdle)
    else s
  }

  function NotBlankAt(s: State, k: nat): (r: State) {
    s.(page64 := U8(k / 0x1_0000), start := U16(k), state := DfuError, status := ErrCheckErased)
  }

  /** The blank check says something only when it fails. */
  function BlankChecked(p: Part, s: State): (r: State)
    requires StateOk(p, s)
    ensures Kept(s, r)
  {
    var k := FirstNonBlank(s.mem.flash.bytes, 0, p.boot);
    if k < p.boot then NotBlankAt(s, k) else s
  }

  function MemRead(p: Part, s: State): (r: State)
    requires StateOk(p, s)
    ensures Kept(s, r)
  {
    if s.sent.data[0] == 0x00 || s.sent.data[0] == 0x02 then Loaded(s).(state := UploadIdle)
    else if s.sent.data[0] == 0x01 then BlankChecked(p, s)
    else s
  }

  function WriteCommand(p: Part, s: State): (r: State)
    requires StateOk(p, s)
    ensures Kept(s, r)
  {
    var d := s.sent.data;
    if d[0] == 0x03 then
      if s.sent.size != 0 then s.(waitForExit := true)
      else if d[1] == 0x00 then s.(waitForExit := true, watchdog := true)
      else s.(waitForExit := true, appStart := Wide(d[3], d[4]), run := false)
    else if d[0] == 0x00 && d[1] == 0xFF then
      s.(mem := s.mem.(flash := EraseFrom(s.mem.flash, 0, p.boot)), secure := false)
    else s
  }

  const BOOTLOADER_INFO: seq<bv8> := [0x20, 0xDC, 0xFB]

  function Entry(p: Part, table: seq<bv8>, i: int): (b: bv8) {
    if 0 <= i < |table| then table[i] else p.stray(i)
  }

  function ReadCommand(p: Part, s: State): (r: State)
    requires |s.sent.data| == 5 && s.start < 0x1_0000
    ensures Kept(s, r)
  {
    var d := s.sent.data;
    if d[0] == 0x00 then s.(response := Entry(p, BOOTLOADER_INFO, d[1] as int))
    else if d[0] == 0x01 then s.(response := Entry(p, p.signature, d[1] as int - 0x30))
    else s
  }

  /** What a part in secure mode still does: erase everything, and read its information. */
  predicate AllowedWhenSecure(c: Command)
    requires |c.data| == 5
  {
    (c.code == COMMAND_WRITE && c.data[0] == 0x00 && c.data[1] == 0xFF) || c.code == COMMAND_READ
  }

  function Process(p: Part, s: State): (r: State)
    requires StateOk(p, s)
    ensures Kept(s, r)
  {
    var c := s.sent;
    if s.secure && !AllowedWhenSecure(c) then s.(state := DfuError, status := ErrWrite)
    else if c.code == COMMAND_PROG_START then MemProg(s)
    else if c.code == COMMAND_DISP_DATA then MemRead(p, s)
    else if c.code == COMMAND_WRITE then WriteCommand(p, s)
    else if c.code == COMMAND_READ then ReadCommand(p, s)
    else if c.code == COMMAND_CHANGE_BASE_ADDR && c.data[0] == 0x03 && c.data[1] == 0x00 then
      s.(page64 := c.data[2] as nat)
    else s
  }

  // ----- moving data

  /** The number of bytes from `start` to `end`, both included, in sixteen bits. */
  function Remaining(s: State): (n: nat)
    requires s.start < 0x1_0000
    ensures n < 0x1_0000
  {
    U16(s.end + 0x1_0001 - s.start)
  }

  /** The firmware behind a download command. */
  function Downloading(s: State, payload: nat -> bv8): (r: State)
    requires AvrFlash.Valid(s.mem.flash) && |s.mem.eeprom| == EEPROM_SPACE && s.start < 0x1_0000 && |s.sent.data| == 5
  {
    var n := Remaining(s);
    if s.sent.data[0] == 0x00 then
      var a := FlashAddress(s);
      s.(mem := s.mem.(flash := Program(s.mem.flash, a, a, 0, Stream(payload, WordBytes(n)))), start := s.end)
    else
      s.(mem := s.mem.(eeprom := EepromStored(s.mem.eeprom, s.start, Stream(payload, n))), start := U16(s.start + n))
  }

  function Low(w: nat): (b: bv8) {
    (w % 256) as bv8
  }

  function High(w: nat): (b: bv8) {
    (w / 256 % 256) as bv8
  }

  function Uploaded(s: State): (r: seq<bv8>)
    requires |s.mem.eeprom| == EEPROM_SPACE && s.start < 0x1_0000 && |s.sent.data| == 5
  {
    if s.state == UploadIdle then
      if s.sent.data[0] == 0x00 then FlashRead(s.mem.flash, FlashAddress(s), WordBytes(Remaining(s)))
      else if s.sent.data[0] == 0x02 then EepromRead(s.mem.eeprom, s.start, Remaining(s))
      else []
    else if s.state == DfuError && s.sent.data[0] == 0x01 then [Low(s.start), High(s.start)]
    else [s.response]
  }

  function AfterUpload(s: State): (r: State)
    requires s.start < 0x1_0000 && |s.sent.data| == 5
  {
    if s.state != UploadIdle then s
    else if s.sent.data[0] == 0x00 then s.(start := s.end, state := DfuIdle)
    else if s.sent.data[0] == 0x02 then s.(start := U16(s.start + Remaining(s)), state := DfuIdle)
    else s.(state := DfuIdle)
  }

  // ----- the requests

  function Received(c: Command, r: Request): (r': Command)
    requires r.Dnload? && |c.data| == 5 && |r.params| <= 5 && |r.params| + 1 <= r.wLength
  {
    Command(r.code, r.params + c.data[|r.params|..], r.wLength - 1 - |r.params|)
  }

  lemma ProcessOk(p: Part, s: State)
    requires StateOk(p, s)
    ensures StateOk(p, Process(p, s))
    ensures Process(p, s).sent == s.sent
  {
  }

  /** A command that asked to exit is carried out once more, whatever comes next. */
  function Exiting(p: Part, s: State): (r: State)
    requires StateOk(p, s)
    ensures StateOk(p, r)
  {
    ProcessOk(p, s);
    if s.waitForExit then Process(p, s).(waitForExit := false) else s
  }

  /** The command of a request that has a data stage. */
  function Commanded(p: Part, s: State, r: Request): (s': State)
    requires StateOk(p, s) && r.Dnload? && RequestOk(r)
    ensures StateOk(p, s')
  {
    if r.wLength > 0 then
      var c := s.(sent := Received(s.sent, r));
      ProcessOk(p, c);
      Process(p, c)
    else s
  }

  function Finished(p: Part, s: State, r: Request): (s': State)
    requires StateOk(p, s) && r.Dnload?
    ensures StateOk(p, s')
  {
    if s.state != DnloadIdle then s
    else if s.sent.size == 0 then s.(state := DfuIdle)
    else Downloading(s, r.payload)
  }

  /** A download request: a pending exit, the command it carries, and the firmware behind that. */
  function AfterDnload(p: Part, s: State, r: Request): (s': State)
    requires StateOk(p, s) && RequestOk(r) && r.Dnload?
    ensures StateOk(p, s')
  {
    Finished(p, Commanded(p, Exiting(p, s), r), r)
  }

  function Step(p: Part, s: State, r: Request): (s': State)
    requires StateOk(p, s) && RequestOk(r)
    ensures StateOk(p, s')
  {
    var sized := s.(sent := s.sent.(size := r.wLength));
    match r
    case Dnload(_, _, _, _) => AfterDnload(p, sized, r)
    case Upload(_) => AfterUpload(sized)
    case ClrStatus(_) => sized.(status := Ok)
    case Abort(_) => sized.(state := DfuIdle)
    case _ => sized
  }

  function Reply(p: Part, s: State, r: Request): (bytes: seq<bv8>)
    requires StateOk(p, s)
  {
    match r
    case Upload(_) => Uploaded(s)
    case GetStatus(_) => [StatusCode(s.status), 0, 0, 0, StateCode(s.state), 0]
    case GetState(_) => [StateCode(s.state)]
    case _ => []
  }

  function Run(p: Part, s: State, rs: seq<Request>): (s': State)
    requires StateOk(p, s) && forall i :: 0 <= i < |rs| ==> RequestOk(rs[i])
    ensures StateOk(p, s')
    decreases |rs|
  {
    if rs == [] then s else Run(p, Step(p, s, rs[0]), rs[1..])
  }

  // ----- the bootloader itself

  class Bootloader {
    const part: Part
    var isSecure: bool
    var runBootloader: bool
    var waitForExit: bool
    var watchdog: bool
    var dfuState: DfuState
    var dfuStatus: Status
    var sentCommand: Command
    var responseByte: bv8
    var appStartPtr: nat
    var flash64KBPage: nat
    var startAddr: nat
    var endAddr: nat
    var flash: Flash
    var eeprom: seq<bv8>

    function Now(): (s: State)
      reads this
    {
      State(isSecure, runBootloader, waitForExit, watchdog, dfuState, dfuStatus, sentCommand, responseByte,
            appStartPtr, flash64KBPage, startAddr, endAddr, Memory(flash, eeprom))
    }

    predicate Ok()
      reads this
    {
      StateOk(part, Now())
    }

    constructor (part: Part, secureMode: bool, flash: Flash, eeprom: seq<bv8>)
      requires AvrFlash.Valid(flash) && PartOk(part, |flash.temp|) && part.boot <= |flash.bytes| &&
               |eeprom| == EEPROM_SPACE
      ensures Ok() && this.part == part
      ensures Now() == State(secureMode, true, false, false, DfuIdle, Status.Ok, Command(0, [0, 0, 0, 0, 0], 0),
                             0, 0, 0, 0, 0, Memory(flash, eeprom))
    {
      this.part := part;
      isSecure, runBootloader, waitForExit, watchdog := secureMode, true, false, false;
      dfuState, dfuStatus := DfuIdle, Status.Ok;
      sentCommand, responseByte, appStartPtr := Command(0, [0, 0, 0, 0, 0], 0), 0, 0;
      flash64KBPage, startAddr, endAddr := 0, 0, 0;
      this.flash, this.eeprom := flash, eeprom;
    }

    method LoadStartEndAddresses()
      requires Ok()
      modifies this
      ensures Ok() && Now() == Loaded(old(Now()))
    {
      startAddr := Wide(sentCommand.data[1], sentCommand.data[2]);
      endAddr := Wide(sentCommand.data[3], sentCommand.data[4]);
    }

    method ProcessMemProgCommand()
      requires Ok()
      modifies this
      ensures Ok() && Now() == MemProg(old(Now()))
    {
      if sentCommand.data[0] == 0x00 || sentCommand.data[0] == 0x01 {
        LoadStartEndAddresses();
        if sentCommand.data[0] == 0x00 {
          flash := Erase(flash, startAddr + 0x1_0000 * flash64KBPage);
        }
        dfuState := DnloadIdle;
      }
    }

    method ProcessMemReadCommand()
      requires Ok()
      modifies this
      ensures Ok() && Now() == MemRead(part, old(Now()))
    {
      if sentCommand.data[0] == 0x00 || sentCommand.data[0] == 0x02 {
        LoadStartEndAddresses();
        dfuState := UploadIdle;
      } else if sentCommand.data[0] == 0x01 {
        var currFlashAddress := 0;
        while currFlashAddress < part.boot
          invariant currFlashAddress <= part.boot && Ok() && Now() == old(Now())
          invariant FirstNonBlank(flash.bytes, currFlashAddress, part.boot) == FirstNonBlank(flash.bytes, 0, part.boot)
        {
          if flash.bytes[currFlashAddress] != BLANK {
            flash64KBPage := U8(currFlashAddress / 0x1_0000);
            startAddr := U16(currFlashAddress);
            dfuState := DfuError;
            dfuStatus := ErrCheckErased;
            break;
          }
          currFlashAddress := currFlashAddress + 1;
        }
      }
    }

    method EraseApplication()
      requires Ok()
      modifies this`flash
      ensures flash == EraseFrom(old(flash), 0, part.boot) && Ok()
    {
      var currFlashAddress := 0;
      while currFlashAddress < part.boot
        invariant AvrFlash.Valid(flash) && |flash.temp| == |old(flash).temp| && |flash.bytes| == |old(flash).bytes|
        invariant EraseFrom(flash, currFlashAddress, part.boot) == EraseFrom(old(flash), 0, part.boot)
        decreases part.boot - currFlashAddress
      {
        flash := Erase(flash, currFlashAddress);
        flash := Write(flash, currFlashAddress);
        currFlashAddress := currFlashAddress + |flash.temp|;
      }
    }

    method ProcessWriteCommand()
      requires Ok()
      modifies this
      ensures Ok() && Now() == WriteCommand(part, old(Now()))
    {
      if sentCommand.data[0] == 0x03 {
        waitForExit := true;
        if sentCommand.size == 0 {
          if sentCommand.data[1] == 0x00 {
            watchdog := true;
          } else {
            appStartPtr := Wide(sentCommand.data[3], sentCommand.data[4]);
            runBootloader := false;
          }
        }
      } else if sentCommand.data[0] == 0x00 && sentCommand.data[1] == 0xFF {
        EraseApplication();
        isSecure := false;
      }
    }

    method ProcessReadCommand()
      requires Ok()
      modifies this
      ensures Ok() && Now() == ReadCommand(part, old(Now()))
    {
      if sentCommand.data[0] == 0x00 {
        responseByte := Entry(part, BOOTLOADER_INFO, sentCommand.data[1] as int);
      } else if sentCommand.data[0] == 0x01 {
        responseByte := Entry(part, part.signature, sentCommand.data[1] as int - 0x30);
      }
    }

    method ProcessBootloaderCommand()
      requires Ok()
      modifies this
      ensures Ok() && Now() == Process(part, old(Now()))
    {
      if isSecure {
        if !AllowedWhenSecure(sentCommand) {
          dfuState := DfuError;
          dfuStatus := ErrWrite;
          return;
        }
      }
      if sentCommand.code == COMMAND_PROG_START {
        ProcessMemProgCommand();
      } else if sentCommand.code == COMMAND_DISP_DATA {
        ProcessMemReadCommand();
      } else if sentCommand.code == COMMAND_WRITE {
        ProcessWriteCommand();
      } else if sentCommand.code == COMMAND_READ {
        ProcessReadCommand();
      } else if sentCommand.code == COMMAND_CHANGE_BASE_ADDR {
        if sentCommand.data[0] == 0x03 && sentCommand.data[1] == 0x00 {
          flash64KBPage := sentCommand.data[2] as nat;
        }
      }
    }

    /** One word: the page is written when it is full or nothing is left, and the next one is erased. */
    method ProgramWord(pageStart: nat, addr: nat, inPage: nat, lo: bv8, hi: bv8, more: bool, ghost data: seq<bv8>)
      returns (pageStart': nat, inPage': nat)
      requires AvrFlash.Valid(flash) && |data| >= 2
      requires lo == data[0] && hi == data[1] && (more <==> |data| >= 4)
      modifies this`flash
      ensures AvrFlash.Valid(flash) && |flash.temp| == |old(flash).temp| && |flash.bytes| == |old(flash).bytes|
      ensures Program(flash, pageStart', addr + 2, inPage', data[2..]) ==
              Program(old(flash), pageStart, addr, inPage, data)
    {
      ProgramStep(flash, pageStart, addr, inPage, data);
      pageStart', inPage' := pageStart, inPage;
      flash := Fill(flash, addr, lo, hi);
      inPage' := inPage' + 1;
      if inPage' == |flash.temp| / 2 || !more {
        flash := Write(flash, pageStart);
        if more {
          pageStart' := addr + 2;
          inPage' := 0;
          flash := Erase(flash, addr + 2);
        }
      }
    }

    /** Fills, writes and erases pages as the words come in. */
    method ProgramFlash(address: nat, payload: nat -> bv8, words: nat)
      requires AvrFlash.Valid(flash)
      modifies this`flash
      ensures flash == Program(old(flash), address, address, 0, Stream(payload, 2 * words))
    {
      var currFlashAddress, currFlashPageStartAddress, wordsInFlashPage := address, address, 0;
      var done := 0;
      ghost var data := Stream(payload, 2 * words);
      ghost var rest, at, all := data, 0, Program(flash, address, address, 0, data);
      while done < words
        invariant done <= words && at == 2 * done && AvrFlash.Valid(flash)
        invariant rest == data[at..] && |rest| == 2 * words - at
        invariant Program(flash, currFlashPageStartAddress, currFlashAddress, wordsInFlashPage, rest) == all
      {
        RestOf(data, at);
        assert rest[0] == payload(2 * done) && rest[1] == payload(2 * done + 1);
        currFlashPageStartAddress, wordsInFlashPage :=
          ProgramWord(currFlashPageStartAddress, currFlashAddress, wordsInFlashPage,
                      payload(2 * done), payload(2 * done + 1), done + 1 < words, rest);
        rest, at := rest[2..], at + 2;
        done := done + 1;
        currFlashAddress := currFlashAddress + 2;
      }
    }

    method StoreEeprom(payload: nat -> bv8, n: nat)
      requires |eeprom| == EEPROM_SPACE && startAddr < EEPROM_SPACE
      modifies this`eeprom, this`startAddr
      ensures eeprom == EepromStored(old(eeprom), old(startAddr), Stream(payload, n))
      ensures startAddr == U16(old(startAddr) + n)
    {
      var done := 0;
      ghost var rest := Stream(payload, n);
      while done < n
        invariant done <= n && |eeprom| == EEPROM_SPACE && startAddr < EEPROM_SPACE
        invariant startAddr == U16(old(startAddr) + done) && rest == Stream(payload, n)[done..]
        invariant EepromStored(eeprom, startAddr, rest) == EepromStored(old(eeprom), old(startAddr), Stream(payload, n))
      {
        NextAddress(old(startAddr), done);
        eeprom := eeprom[startAddr := payload(done)];
        startAddr := U16(startAddr + 1);
        done := done + 1;
        rest := rest[1..];
      }
    }

    method DownloadFlash(payload: nat -> bv8, bytesRemaining: nat)
      requires Ok() && sentCommand.data[0] == 0x00 && bytesRemaining == Remaining(Now())
      modifies this
      ensures Ok() && Now() == Downloading(old(Now()), payload)
    {
      ghost var words := WordBytes(bytesRemaining);
      assert words == 2 * (bytesRemaining / 2);
      ProgramFlash(startAddr + 0x1_0000 * flash64KBPage, payload, bytesRemaining / 2);
      startAddr := endAddr;
    }

    method DownloadFirmware(payload: nat -> bv8)
      requires Ok()
      modifies this
      ensures Ok() && Now() == Downloading(old(Now()), payload)
    {
      var bytesRemaining := U16(endAddr + 0x1_0001 - startAddr);
      if sentCommand.data[0] == 0x00 {
        DownloadFlash(payload, bytesRemaining);
      } else {
        StoreEeprom(payload, bytesRemaining);
      }
    }

    method UploadFlash(words: nat) returns (reply: seq<bv8>)
      requires Ok()
      ensures reply == FlashRead(flash, FlashAddress(Now()), 2 * words)
    {
      reply := [];
      var currFlashAddress := startAddr + 0x1_0000 * flash64KBPage;
      var done := 0;
      while done < words
        invariant done <= words && currFlashAddress == FlashAddress(Now()) + 2 * done
        invariant reply == FlashRead(flash, FlashAddress(Now()), 2 * done)
      {
        reply := reply + [FlashByte(flash, currFlashAddress), FlashByte(flash, currFlashAddress + 1)];
        currFlashAddress := currFlashAddress + 2;
        done := done + 1;
      }
    }

    method UploadEeprom(n: nat) returns (reply: seq<bv8>)
      requires |eeprom| == EEPROM_SPACE && startAddr < EEPROM_SPACE
      modifies this`startAddr
      ensures reply == EepromRead(eeprom, old(startAddr), n) && startAddr == U16(old(startAddr) + n)
    {
      reply := [];
      var done := 0;
      ghost var rest := EepromRead(eeprom, startAddr, n);
      while done < n
        invariant done <= n && startAddr < EEPROM_SPACE && startAddr == U16(old(startAddr) + done)
        invariant rest == EepromRead(eeprom, startAddr, n - done) &&
                  reply + rest == EepromRead(eeprom, old(startAddr), n)
      {
        ReadOne(eeprom, startAddr, n - done, reply);
        NextAddress(old(startAddr), done);
        reply := reply + [eeprom[startAddr]];
        startAddr := U16(startAddr + 1);
        done := done + 1;
        rest := EepromRead(eeprom, startAddr, n - done);
      }
    }

    method UploadData() returns (reply: seq<bv8>)
      requires Ok()
      modifies this
      ensures Ok() && reply == old(Uploaded(Now())) && Now() == AfterUpload(old(Now()))
    {
      reply := [];
      if dfuState != UploadIdle {
        if dfuState == DfuError && sentCommand.data[0] == 0x01 {
          reply := [Low(startAddr), High(startAddr)];
        } else {
          reply := [responseByte];
        }
      } else {
        var bytesRemaining := U16(endAddr + 0x1_0001 - startAddr);
        if sentCommand.data[0] == 0x00 {
          reply := UploadFlash(bytesRemaining / 2);
          startAddr := endAddr;
        } else if sentCommand.data[0] == 0x02 {
          reply := UploadEeprom(bytesRemaining);
        }
        dfuState := DfuIdle;
      }
    }

    method HandleDnload(r: Request)
      requires Ok() && RequestOk(r) && r.Dnload?
      modifies this
      ensures Ok() && Now() == AfterDnload(part, old(Now()), r)
    {
      if waitForExit {
        ProcessBootloaderCommand();
        waitForExit := false;
      }
      if r.wLength != 0 {
        sentCommand := Command(r.code, r.params + sentCommand.data[|r.params|..], r.wLength - 1 - |r.params|);
        ProcessBootloaderCommand();
      }
      if dfuState == DnloadIdle {
        if sentCommand.size == 0 {
          dfuState := DfuIdle;
        } else {
          DownloadFirmware(r.payload);
        }
      }
    }

    /** One control request of the host. */
    method HandleRequest(r: Request) returns (reply: seq<bv8>)
      requires Ok() && RequestOk(r)
      modifies this
      ensures Ok() && Now() == Step(part, old(Now()), r)
      ensures reply == old(Reply(part, Now(), r))
    {
      reply := [];
      sentCommand := sentCommand.(size := r.wLength);
      match r {
        case Dnload(_, _, _, _) =>
          HandleDnload(r);
        case Upload(_) =>
          reply := UploadData();
        case GetStatus(_) =>
          reply := [StatusCode(dfuStatus), 0, 0, 0, StateCode(dfuState), 0];
        case ClrStatus(_) =>
          dfuStatus := Status.Ok;
        case GetState(_) =>
          reply := [StateCode(dfuState)];
        case Abort(_) =>
          dfuState := DfuIdle;
        case Unknown(_) =>
      }
    }
  }
}
