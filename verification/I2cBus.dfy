/**
 The I2C bus mode: '[' and ']' bracket a transfer, numbers are writes and 'r' is a read. Every operation
 is carried out one call late, so that the last read of a bracket can be left without acknowledge.
 */
module I2cBus {
  import opened I2cWire
  import opened I2cLine
  import opened I2cMaster

  datatype Mode = Init | AddrPending | StartPending | WriteDataPending | ReadDataPending | Error

  datatype Op = Open | Close | Write(c: bv8) | Read

  /** `out` is what was handed to the user. */
  datatype State = State(mode: Mode, pending: bv8, events: seq<Event>, out: seq<bv8>)

  function AfterClear(slave: Slave, events: seq<Event>): (r: seq<Event>) {
    AfterStart(slave, events, 0x01) + [Stop]
  }

  function Fail(slave: Slave, s: State): (r: State) {
    s.(mode := Error, events := AfterClear(slave, s.events))
  }

  /** One call of the bus interface. */
  function Step(slave: Slave, s: State, op: Op): (r: State) {
    match op
    case Open => s.(mode := AddrPending)
    case Close =>
      (match s.mode
       case StartPending => s.(mode := Init, events := AfterStart(slave, s.events, s.pending) + [Stop])
       case WriteDataPending => s.(mode := Init, events := AfterTx(slave, s.events, [s.pending]) + [Stop])
       case ReadDataPending =>
         s.(mode := Init, events := AfterRx(slave, s.events, 1, false) + [Stop],
            out := s.out + RxBytes(slave, s.events, 1, false))
       case _ => s.(mode := Init))
    case Write(c) =>
      (match s.mode
       case AddrPending => s.(mode := StartPending, pending := c)
       case StartPending =>
         var started := s.(events := AfterStart(slave, s.events, s.pending));
         if StartAcked(slave, s.events, s.pending) then started.(mode := WriteDataPending, pending := c)
         else Fail(slave, started)
       case WriteDataPending =>
         var sent := s.(events := AfterTx(slave, s.events, [s.pending]));
         if TxAcked(slave, s.events, [s.pending]) then sent.(pending := c) else Fail(slave, sent)
       case _ => Fail(slave, s))
    case Read =>
      (match s.mode
       case StartPending =>
         var started := s.(events := AfterStart(slave, s.events, s.pending));
         if StartAcked(slave, s.events, s.pending) then started.(mode := ReadDataPending)
         else Fail(slave, started)
       case ReadDataPending =>
         s.(events := AfterRx(slave, s.events, 1, true), out := s.out + RxBytes(slave, s.events, 1, true))
       case _ => Fail(slave, s))
  }

  function Run(slave: Slave, s: State, ops: seq<Op>): (r: State)
    decreases |ops|
  {
    if ops == [] then s else Run(slave, Step(slave, s, ops[0]), ops[1..])
  }

  lemma {:induction false} RunAppend(slave: Slave, s: State, x: seq<Op>, y: seq<Op>)
    ensures Run(slave, s, x + y) == Run(slave, Run(slave, s, x), y)
    decreases |x|
  {
    if x == [] {
      assert x + y == y;
    } else {
      assert (x + y)[1..] == x[1..] + y;
      RunAppend(slave, Step(slave, s, x[0]), x[1..], y);
    }
  }

  // ----- where the master needs SDA to itself

  /** The bus is free, or the slave leaves SDA alone in the coming clock period. */
  predicate Free(slave: Slave, events: seq<Event>) {
    events == [] || events[|events| - 1] == Stop || slave(events, [])
  }

  predicate ClearOk(slave: Slave, events: seq<Event>) {
    Free(slave, events) && slave(AfterStart(slave, events, 0x01), [])
  }

  /** Wherever the step makes a START or a STOP, the slave does not hold SDA low. */
  predicate Clean(slave: Slave, s: State, op: Op) {
    match op
    case Open => true
    case Close =>
      (match s.mode
       case StartPending => Free(slave, s.events) && slave(AfterStart(slave, s.events, s.pending), [])
       case WriteDataPending => slave(AfterTx(slave, s.events, [s.pending]), [])
       case ReadDataPending => slave(AfterRx(slave, s.events, 1, false), [])
       case _ => true)
    case Write(c) =>
      (match s.mode
       case AddrPending => true
       case StartPending =>
         Free(slave, s.events) &&
         (StartAcked(slave, s.events, s.pending) || ClearOk(slave, AfterStart(slave, s.events, s.pending)))
       case WriteDataPending =>
         TxAcked(slave, s.events, [s.pending]) || ClearOk(slave, AfterTx(slave, s.events, [s.pending]))
       case _ => ClearOk(slave, s.events))
    case Read =>
      (match s.mode
       case StartPending =>
         Free(slave, s.events) &&
         (StartAcked(slave, s.events, s.pending) || ClearOk(slave, AfterStart(slave, s.events, s.pending)))
       case ReadDataPending => true
       case _ => ClearOk(slave, s.events))
  }

  predicate CleanRun(slave: Slave, s: State, ops: seq<Op>)
    decreases |ops|
  {
    ops == [] || (Clean(slave, s, ops[0]) && CleanRun(slave, Step(slave, s, ops[0]), ops[1..]))
  }

  lemma {:induction false} CleanAppend(slave: Slave, s: State, x: seq<Op>, y: seq<Op>)
    ensures CleanRun(slave, s, x + y) <==> CleanRun(slave, s, x) && CleanRun(slave, Run(slave, s, x), y)
    decreases |x|
  {
    if x == [] {
      assert x + y == y;
    } else {
      assert (x + y)[1..] == x[1..] + y;
      CleanAppend(slave, Step(slave, s, x[0]), x[1..], y);
    }
  }

  // ----- the interface for slaves that hold SDA as they like

  datatype BusState = BusState(mode: Mode, pending: bv8, line: Line, out: seq<bv8>)

  /** SCL is low whenever an operation of a transfer is pending. */
  predicate BusOk(s: BusState) {
    LineOk(s.line) && (s.mode == WriteDataPending || s.mode == ReadDataPending ==> s.line.hold == Held)
  }

  function Failed(slave: Slave, s: BusState): (r: BusState)
    requires LineOk(s.line)
    ensures BusOk(r)
  {
    s.(mode := Error, line := Cleared(slave, s.line))
  }

  function BusClose(slave: Slave, s: BusState): (r: BusState)
    requires BusOk(s)
    ensures BusOk(r)
  {
    match s.mode
    case StartPending => s.(mode := Init, line := StopMade(slave, Started(slave, s.line, s.pending)))
    case WriteDataPending => s.(mode := Init, line := StopMade(slave, Transmitted(slave, s.line, [s.pending])))
    case ReadDataPending =>
      s.(mode := Init, line := StopMade(slave, Received(slave, s.line, 1, false)),
         out := s.out + ReceivedBytes(slave, s.line, 1, false))
    case _ => s.(mode := Init)
  }

  function BusWrite(slave: Slave, s: BusState, c: bv8): (r: BusState)
    requires BusOk(s)
    ensures BusOk(r)
  {
    match s.mode
    case AddrPending => s.(mode := StartPending, pending := c)
    case StartPending =>
      var started := s.(line := Started(slave, s.line, s.pending));
      if StartedAcked(slave, s.line, s.pending) then started.(mode := WriteDataPending, pending := c)
      else Failed(slave, started)
    case WriteDataPending =>
      var sent := s.(line := Transmitted(slave, s.line, [s.pending]));
      if AllAcked(slave, s.line, [s.pending]) then sent.(pending := c) else Failed(slave, sent)
    case _ => Failed(slave, s)
  }

  function BusRead(slave: Slave, s: BusState): (r: BusState)
    requires BusOk(s)
    ensures BusOk(r)
  {
    match s.mode
    case StartPending =>
      var started := s.(line := Started(slave, s.line, s.pending));
      if StartedAcked(slave, s.line, s.pending) then started.(mode := ReadDataPending)
      else Failed(slave, started)
    case ReadDataPending =>
      s.(line := Received(slave, s.line, 1, true), out := s.out + ReceivedBytes(slave, s.line, 1, true))
    case _ => Failed(slave, s)
  }

  function BusStep(slave: Slave, s: BusState, op: Op): (r: BusState)
    requires BusOk(s)
    ensures BusOk(r)
  {
    match op
    case Open => s.(mode := AddrPending)
    case Close => BusClose(slave, s)
    case Write(c) => BusWrite(slave, s, c)
    case Read => BusRead(slave, s)
  }

  function BusRun(slave: Slave, s: BusState, ops: seq<Op>): (r: BusState)
    requires BusOk(s)
    ensures BusOk(r)
    decreases |ops|
  {
    if ops == [] then s else BusRun(slave, BusStep(slave, s, ops[0]), ops[1..])
  }

  /** Frames in step, and the bus held exactly in a transfer. */
  predicate Regular(l: Line) {
    InStep(l) && (l.hold == Held <==> l.events != [] && l.events[|l.events| - 1] != Stop)
  }

  predicate Undisturbed(s: BusState) {
    BusOk(s) && Regular(s.line)
  }

  function Seen(s: BusState): (r: State) {
    State(s.mode, s.pending, s.line.events, s.out)
  }

  lemma StartClean(slave: Slave, s: BusState)
    requires Undisturbed(s) && Free(slave, s.line.events)
    ensures Started(slave, s.line, s.pending) == Line(AfterStart(slave, s.line.events, s.pending), [], Held)
    ensures StartedAcked(slave, s.line, s.pending) == StartAcked(slave, s.line.events, s.pending)
  {
    StartInStep(slave, s.line, s.pending);
  }

  lemma ClearClean(slave: Slave, l: Line)
    requires Regular(l) && ClearOk(slave, l.events)
    ensures Cleared(slave, l) == Line(AfterClear(slave, l.events), [], AtRest)
  {
    StartInStep(slave, l, 0x01);
    StopInStep(slave, Line(AfterStart(slave, l.events, 0x01), [], Held));
  }

  lemma CloseStepClean(slave: Slave, s: BusState)
    requires Undisturbed(s) && Clean(slave, Seen(s), Close)
    ensures Undisturbed(BusClose(slave, s)) && Seen(BusClose(slave, s)) == Step(slave, Seen(s), Close)
  {
    match s.mode
    case StartPending =>
      StartClean(slave, s);
      StopInStep(slave, Started(slave, s.line, s.pending));
    case WriteDataPending =>
      TransmitInStep(slave, s.line.events, [s.pending]);
      StopInStep(slave, Transmitted(slave, s.line, [s.pending]));
    case ReadDataPending =>
      ReceiveInStep(slave, s.line.events, 1, false);
      StopInStep(slave, Received(slave, s.line, 1, false));
    case _ =>
  }

  lemma FailClean(slave: Slave, s: BusState)
    requires Regular(s.line) && ClearOk(slave, s.line.events)
    ensures Undisturbed(Failed(slave, s)) && Seen(Failed(slave, s)) == Fail(slave, Seen(s))
  {
    ClearClean(slave, s.line);
  }

  /** In a transfer, a byte sent or taken leaves the bus held. */
  lemma TransferHeld(slave: Slave, events: seq<Event>, b: bv8, ack: bool)
    ensures Regular(Line(AfterStart(slave, events, b), [], Held))
    ensures Regular(Line(AfterTx(slave, events, [b]), [], Held))
    ensures Regular(Line(AfterRx(slave, events, 1, ack), [], Held))
  {
  }

  lemma WriteStepClean(slave: Slave, s: BusState, c: bv8)
    requires Undisturbed(s) && Clean(slave, Seen(s), Write(c))
    ensures Undisturbed(BusWrite(slave, s, c)) && Seen(BusWrite(slave, s, c)) == Step(slave, Seen(s), Write(c))
  {
    TransferHeld(slave, s.line.events, s.pending, true);
    match s.mode
    case AddrPending =>
    case StartPending =>
      StartClean(slave, s);
      if !StartAcked(slave, s.line.events, s.pending) {
        FailClean(slave, s.(line := Started(slave, s.line, s.pending)));
      }
    case WriteDataPending =>
      TransmitInStep(slave, s.line.events, [s.pending]);
      if !TxAcked(slave, s.line.events, [s.pending]) {
        FailClean(slave, s.(line := Transmitted(slave, s.line, [s.pending])));
      }
    case _ =>
      FailClean(slave, s);
  }

  lemma ReadStepClean(slave: Slave, s: BusState)
    requires Undisturbed(s) && Clean(slave, Seen(s), Read)
    ensures Undisturbed(BusRead(slave, s)) && Seen(BusRead(slave, s)) == Step(slave, Seen(s), Read)
  {
    TransferHeld(slave, s.line.events, s.pending, true);
    match s.mode
    case StartPending =>
      StartClean(slave, s);
      if !StartAcked(slave, s.line.events, s.pending) {
        FailClean(slave, s.(line := Started(slave, s.line, s.pending)));
      }
    case ReadDataPending =>
      ReceiveInStep(slave, s.line.events, 1, true);
    case _ =>
      FailClean(slave, s);
  }

  /** A call that finds SDA released where it needs it goes as the frames say, and leaves them in step. */
  lemma StepClean(slave: Slave, s: BusState, op: Op)
    requires Undisturbed(s) && Clean(slave, Seen(s), op)
    ensures Undisturbed(BusStep(slave, s, op)) && Seen(BusStep(slave, s, op)) == Step(slave, Seen(s), op)
  {
    match op
    case Open =>
    case Close => CloseStepClean(slave, s);
    case Write(c) => WriteStepClean(slave, s, c);
    case Read => ReadStepClean(slave, s);
  }

  /** A run of such calls. */
  lemma {:induction false} RunClean(slave: Slave, s: BusState, ops: seq<Op>)
    requires Undisturbed(s) && CleanRun(slave, Seen(s), ops)
    ensures Undisturbed(BusRun(slave, s, ops)) && Seen(BusRun(slave, s, ops)) == Run(slave, Seen(s), ops)
    decreases |ops|
  {
    if ops != [] {
      StepClean(slave, s, ops[0]);
      RunClean(slave, BusStep(slave, s, ops[0]), ops[1..]);
    }
  }

  // ----- the bus interface itself, over the bit-banging master

  lemma OwnReadBit(b: bv8)
    ensures AddressByte(b, b & 0x01 != 0) == b
  {
  }

  class Bus {
    const hw: Master
    var mode: Mode
    var pending: bv8
    var out: seq<bv8>

    ghost function Now(): (s: BusState)
      reads this, hw
    {
      BusState(mode, pending, hw.Now(), out)
    }

    ghost predicate Valid()
      reads this, hw
    {
      hw.Valid() && BusOk(Now())
    }

    constructor (hw: Master)
      requires hw.Valid()
      modifies hw
      ensures Valid() && this.hw == hw && Now() == BusState(Init, 0, Cleared(hw.slave, old(hw.Now())), [])
    {
      this.hw, mode, pending, out := hw, Init, 0, [];
      new;
      hw.BusClear();
    }

    method StartCondition()
      requires Valid()
      modifies this`mode
      ensures Valid() && Now() == BusStep(hw.slave, old(Now()), Open)
    {
      mode := AddrPending;
    }

    /** Clears the bus after a missing acknowledge or a call out of place. */
    method GiveUp()
      requires Valid()
      modifies this`mode, hw
      ensures Valid() && Now() == Failed(hw.slave, old(Now()))
    {
      hw.BusClear();
      mode := Error;
    }

    /** The START and the pending address. */
    method SendAddress() returns (acked: bool)
      requires Valid()
      modifies hw
      ensures Valid() && hw.holdBus && Now() == old(Now()).(line := Started(hw.slave, old(hw.Now()), pending))
      ensures acked == StartedAcked(hw.slave, old(hw.Now()), pending)
    {
      OwnReadBit(pending);
      acked := hw.MasterStart(pending, pending & 0x01 != 0);
    }

    /** A byte taken and handed to the user. */
    method Take(ack: bool)
      requires Valid() && hw.holdBus
      modifies this`out, hw
      ensures Valid() && hw.holdBus
      ensures Now() == old(Now()).(line := Received(hw.slave, old(hw.Now()), 1, ack),
                                   out := old(out) + ReceivedBytes(hw.slave, old(hw.Now()), 1, ack))
    {
      var c := hw.MasterRx(1, ack);
      out := out + c;
    }

    method StopCondition()
      requires Valid()
      modifies this`mode, this`out, hw
      ensures Valid() && Now() == BusStep(hw.slave, old(Now()), Close)
    {
      match mode {
        case StartPending =>
          var acked := SendAddress();
          hw.MasterStop();
        case WriteDataPending =>
          var acked := hw.MasterTx([pending]);
          hw.MasterStop();
        case ReadDataPending =>
          Take(false);
          hw.MasterStop();
        case _ =>
      }
      mode := Init;
    }

    method WriteByte(c: bv8)
      requires Valid()
      modifies this`mode, this`pending, hw
      ensures Valid() && Now() == BusStep(hw.slave, old(Now()), Write(c))
    {
      match mode {
        case AddrPending =>
          pending, mode := c, StartPending;
        case StartPending =>
          var acked := SendAddress();
          if !acked {
            GiveUp();
          } else {
            pending, mode := c, WriteDataPending;
          }
        case WriteDataPending =>
          var acked := hw.MasterTx([pending]);
          if acked {
            pending := c;
          } else {
            GiveUp();
          }
        case _ =>
          GiveUp();
      }
    }

    method ReadByte()
      requires Valid()
      modifies this`mode, this`out, hw
      ensures Valid() && Now() == BusStep(hw.slave, old(Now()), Read)
    {
      match mode {
        case StartPending =>
          var acked := SendAddress();
          if !acked {
            GiveUp();
          } else {
            mode := ReadDataPending;
          }
        case ReadDataPending =>
          Take(true);
        case _ =>
          GiveUp();
      }
    }
  }

  /** The calls of a command line, one after the other, for any slave. */
  method Perform(bus: Bus, ops: seq<Op>)
    requires bus.Valid()
    modifies bus, bus.hw
    ensures bus.Valid() && bus.Now() == BusRun(bus.hw.slave, old(bus.Now()), ops)
  {
    var i := 0;
    ghost var rest, last := ops, BusRun(bus.hw.slave, bus.Now(), ops);
    while i < |ops|
      invariant 0 <= i <= |ops| && rest == ops[i..] && bus.Valid()
      invariant BusRun(bus.hw.slave, bus.Now(), rest) == last
    {
      match ops[i] {
        case Open => bus.StartCondition();
        case Close => bus.StopCondition();
        case Write(c) => bus.WriteByte(c);
        case Read => bus.ReadByte();
      }
      rest := rest[1..];
      i := i + 1;
    }
  }
}
