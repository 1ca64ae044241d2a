/**
 Which sequences of calls never meet a slave that holds SDA against a START or a STOP, whatever slave it is, as
 long as it keeps to the bus rules; and a whole bracket from the calls down to the recorded line levels.
 */
module I2cBrackets {
  import opened Words
  import opened I2cWire
  import opened I2cLine
  import opened I2cBus
  import opened I2cTheorems

  predicate AreCalls(calls: seq<Op>) {
    forall i :: 0 <= i < |calls| ==> calls[i].Write? || calls[i].Read?
  }

  predicate HasWrite(calls: seq<Op>) {
    exists i :: 0 <= i < |calls| && calls[i].Write?
  }

  /** An address that a slave may answer by sending: nobody answers the START byte. */
  predicate MaySend(a: bv8) {
    a & 0x01 != 0 && a != START_BYTE
  }

  /** Behind such an address: reads only; or nothing but a write, or a write with a further write behind it. */
  predicate ReadsRight(calls: seq<Op>) {
    calls != [] && if calls[0].Read? then !HasWrite(calls) else |calls| >= 2 ==> calls[1].Write?
  }

  /** The calls of a bracket that are clean for every slave. */
  predicate AlwaysClean(calls: seq<Op>)
    requires AreCalls(calls)
  {
    calls != [] && calls[0].Write? && MaySend(calls[0].c) ==> ReadsRight(calls[1..])
  }

  function BracketOf(calls: seq<Op>): (ops: seq<Op>) {
    [Open] + calls + [Close]
  }

  // ----- clean calls

  /** Between two calls: nothing that the remaining calls do can meet a slave that sends. */
  predicate Fine(s: State, calls: seq<Op>)
    requires AreCalls(calls)
  {
    var phase := PhaseOf(s.events);
    match s.mode
    case Error => BusIdle(s.events)
    case AddrPending => BusIdle(s.events) && AlwaysClean(calls)
    case StartPending => BusIdle(s.events) && (MaySend(s.pending) ==> ReadsRight(calls))
    case WriteDataPending => phase == Receiving || (phase == Sending && (calls != [] ==> calls[0].Write?))
    case ReadDataPending => phase == Receiving || (phase == Sending && !HasWrite(calls))
    case Init => false
  }

  /** The phase behind the address, and that SDA is released where it was not acknowledged. */
  lemma AddressSent(slave: Slave, events: seq<Event>, a: bv8)
    requires Polite(slave)
    ensures var started := AfterStart(slave, events, a);
            && started != [] && started[|started| - 1] != Stop
            && (!StartAcked(slave, events, a) ==> ClearOk(slave, started) && BusIdle(AfterClear(slave, started)))
            && (StartAcked(slave, events, a) ==> PhaseOf(started) == if a & 0x01 != 0 then Sending else Receiving)
            && (StartAcked(slave, events, a) ==> a != START_BYTE)
  {
    PoliteStart(slave, events, a);
    PoliteClear(slave, events);
    if !StartAcked(slave, events, a) {
      ClearAllowed(slave, AfterStart(slave, events, a));
    }
  }

  /** A byte sent against a slave that sends goes without acknowledge. */
  lemma SentWhileSending(slave: Slave, events: seq<Event>, b: bv8)
    requires Polite(slave) && PhaseOf(events) == Sending
    ensures !TxAcked(slave, events, [b]) && PhaseOf(AfterTx(slave, events, [b])) == Deaf
  {
    assert PoliteAfter(slave, events);
    DriveLast(slave, events, [], Bits(b), true);
    TxOne(slave, events, b);
    PhaseNext(events, Frame(Sent(slave, events, b)));
  }

  lemma RxOne(slave: Slave, events: seq<Event>, ack: bool)
    ensures AfterRx(slave, events, 1, ack) == events + [Frame(Taken(slave, events, ack))]
  {
    assert AfterRx(slave, events + [Frame(Taken(slave, events, ack))], 0, ack) ==
           events + [Frame(Taken(slave, events, ack))];
  }

  /** A byte taken from a slave that receives: acknowledged by the master, or not by anyone. */
  lemma TakenWhileReceiving(slave: Slave, events: seq<Event>, ack: bool)
    requires Polite(slave) && PhaseOf(events) == Receiving
    ensures PhaseOf(AfterRx(slave, events, 1, ack)) == Receiving ||
            (!ack && PhaseOf(AfterRx(slave, events, 1, ack)) == Deaf)
  {
    DriveLast(slave, events, [], Released(BITS), !ack);
    RxOne(slave, events, ack);
    PhaseNext(events, Frame(Taken(slave, events, ack)));
  }

  lemma LaterWrite(calls: seq<Op>)
    requires calls != [] && HasWrite(calls[1..])
    ensures HasWrite(calls)
  {
    var i :| 0 <= i < |calls[1..]| && calls[1..][i].Write?;
    assert calls[i + 1].Write?;
  }

  lemma FirstCallFine(slave: Slave, s: State, calls: seq<Op>)
    requires Polite(slave) && AreCalls(calls) && calls != [] && s.mode == StartPending && Fine(s, calls)
    ensures Clean(slave, s, calls[0]) && Fine(Step(slave, s, calls[0]), calls[1..])
  {
    AddressSent(slave, s.events, s.pending);
    assert calls[0].Read? && !HasWrite(calls) ==> !HasWrite(calls[1..]) by {
      if calls[0].Read? && !HasWrite(calls) && HasWrite(calls[1..]) {
        LaterWrite(calls);
      }
    }
  }

  /** A byte sent to a slave that receives: acknowledged, or the bus can be cleared. */
  lemma ReceiverTakes(slave: Slave, events: seq<Event>, b: bv8)
    requires Polite(slave) && PhaseOf(events) == Receiving
    ensures var after := AfterTx(slave, events, [b]);
            if TxAcked(slave, events, [b]) then PhaseOf(after) == Receiving
            else ClearOk(slave, after) && BusIdle(AfterClear(slave, after))
  {
    PoliteTx(slave, events, [b]);
    if !TxAcked(slave, events, [b]) {
      ClearAllowed(slave, AfterTx(slave, events, [b]));
    }
  }

  lemma WritingFine(slave: Slave, s: State, calls: seq<Op>)
    requires Polite(slave) && AreCalls(calls) && calls != [] && s.mode == WriteDataPending && Fine(s, calls)
    ensures Clean(slave, s, calls[0]) && Fine(Step(slave, s, calls[0]), calls[1..])
  {
    if PhaseOf(s.events) == Receiving {
      ClearAllowed(slave, s.events);
      ReceiverTakes(slave, s.events, s.pending);
    } else {
      SentWhileSending(slave, s.events, s.pending);
      ClearAllowed(slave, AfterTx(slave, s.events, [s.pending]));
    }
  }

  lemma ReadingFine(slave: Slave, s: State, calls: seq<Op>)
    requires Polite(slave) && AreCalls(calls) && calls != [] && s.mode == ReadDataPending && Fine(s, calls)
    ensures Clean(slave, s, calls[0]) && Fine(Step(slave, s, calls[0]), calls[1..])
  {
    if PhaseOf(s.events) == Receiving {
      TakenWhileReceiving(slave, s.events, true);
      ClearAllowed(slave, s.events);
    } else {
      assert calls[0].Read?;
      PoliteTake(slave, s.events, true);
      RxOne(slave, s.events, true);
      if HasWrite(calls[1..]) {
        LaterWrite(calls);
      }
    }
  }

  lemma CallFine(slave: Slave, s: State, calls: seq<Op>)
    requires Polite(slave) && AreCalls(calls) && calls != [] && Fine(s, calls)
    ensures Clean(slave, s, calls[0]) && Fine(Step(slave, s, calls[0]), calls[1..])
  {
    match s.mode
    case StartPending => FirstCallFine(slave, s, calls);
    case WriteDataPending => WritingFine(slave, s, calls);
    case ReadDataPending => ReadingFine(slave, s, calls);
    case _ => ClearAllowed(slave, s.events);
  }

  lemma CloseFine(slave: Slave, s: State)
    requires Polite(slave) && Fine(s, [])
    ensures Clean(slave, s, Close) && BusIdle(Step(slave, s, Close).events) && Step(slave, s, Close).mode == Init
  {
    match s.mode
    case StartPending =>
      AddressSent(slave, s.events, s.pending);
      if PhaseOf(AfterStart(slave, s.events, s.pending)) != Sending {
        QuietWhenNotSending(slave, AfterStart(slave, s.events, s.pending));
      }
      PoliteStart(slave, s.events, s.pending);
    case WriteDataPending =>
      if PhaseOf(s.events) == Receiving {
        PoliteTx(slave, s.events, [s.pending]);
      } else {
        SentWhileSending(slave, s.events, s.pending);
      }
      QuietWhenNotSending(slave, AfterTx(slave, s.events, [s.pending]));
    case ReadDataPending =>
      if PhaseOf(s.events) == Receiving {
        TakenWhileReceiving(slave, s.events, false);
      } else {
        PoliteTake(slave, s.events, false);
        RxOne(slave, s.events, false);
      }
      QuietWhenNotSending(slave, AfterRx(slave, s.events, 1, false));
    case _ =>
  }

  lemma {:induction false} CallsFine(slave: Slave, s: State, calls: seq<Op>)
    requires Polite(slave) && AreCalls(calls) && Fine(s, calls)
    ensures var r := Run(slave, s, calls + [Close]);
            CleanRun(slave, s, calls + [Close]) && BusIdle(r.events) && r.mode == Init
    decreases |calls|
  {
    var ops := calls + [Close];
    if calls == [] {
      assert ops == [Close];
      CloseFine(slave, s);
      RunOne(slave, s, Close);
    } else {
      CallFine(slave, s, calls);
      assert ops[0] == calls[0] && ops[1..] == calls[1..] + [Close];
      CallsFine(slave, Step(slave, s, calls[0]), calls[1..]);
    }
  }

  // ----- calls that are not

  /** A slave that acknowledges everything but the START byte, and answers with zeros. */
  function Zeros(): (slave: Slave) {
    (events, got) => if PhaseOf(events) == Sending then |got| >= 8 else |got| < 8 || got == Bits(START_BYTE)
  }

  lemma ZerosPolite()
    ensures Polite(Zeros())
  {
    forall events: seq<Event> ensures PoliteAfter(Zeros(), events) {
    }
  }

  lemma SameBits(a: bv8, b: bv8)
    ensures Bits(a) == Bits(b) ==> a == b
  {
    BitsRoundTrip(a);
    BitsRoundTrip(b);
  }

  /** It answers such an address, and then holds SDA low. */
  lemma ZerosAnswer(events: seq<Event>, a: bv8)
    requires MaySend(a)
    ensures StartAcked(Zeros(), events, a) && PhaseOf(AfterStart(Zeros(), events, a)) == Sending
    ensures !Free(Zeros(), AfterStart(Zeros(), events, a)) && !Zeros()(AfterStart(Zeros(), events, a), [])
  {
    ZerosPolite();
    PhaseNext(events, Start);
    assert PoliteAfter(Zeros(), events + [Start]);
    UndisturbedSend(Zeros(), events + [Start], a);
    SameBits(a, START_BYTE);
    AddressSent(Zeros(), events, a);
  }

  lemma NotFree(events: seq<Event>)
    requires PhaseOf(events) == Sending
    ensures !Free(Zeros(), events)
  {
    if events != [] && events[|events| - 1] == Stop {
      assert PhaseOf(events) == Idle;
    }
  }

  /** While it sends, a write behind a read meets a slave that holds SDA low. */
  lemma {:induction false} WriteBehindRead(s: State, calls: seq<Op>)
    requires AreCalls(calls) && HasWrite(calls) && s.mode == ReadDataPending && PhaseOf(s.events) == Sending
    ensures !CleanRun(Zeros(), s, calls + [Close])
    decreases |calls|
  {
    var ops := calls + [Close];
    assert ops[0] == calls[0] && ops[1..] == calls[1..] + [Close];
    if calls[0].Write? {
      NotFree(s.events);
    } else {
      ZerosPolite();
      PoliteTake(Zeros(), s.events, true);
      RxOne(Zeros(), s.events, true);
      var i :| 0 <= i < |calls| && calls[i].Write?;
      assert calls[1..][i - 1].Write?;
      WriteBehindRead(Step(Zeros(), s, calls[0]), calls[1..]);
    }
  }

  lemma CallsNotClean(s: State, calls: seq<Op>)
    requires AreCalls(calls) && s.mode == StartPending && MaySend(s.pending) && !ReadsRight(calls)
    ensures !CleanRun(Zeros(), s, calls + [Close])
  {
    var ops := calls + [Close];
    ZerosAnswer(s.events, s.pending);
    if calls == [] {
      assert ops[0] == Close;
    } else {
      var next := Step(Zeros(), s, calls[0]);
      assert ops[0] == calls[0] && ops[1..] == calls[1..] + [Close];
      if calls[0].Read? {
        var i :| 0 <= i < |calls| && calls[i].Write?;
        assert calls[1..][i - 1].Write?;
        WriteBehindRead(next, calls[1..]);
      } else {
        NotFree(next.events);
        assert ops[1..][0] == Read;
      }
    }
  }

  // ----- the exact set

  lemma BracketFirst(slave: Slave, s: State, calls: seq<Op>)
    ensures CleanRun(slave, s, BracketOf(calls)) <==> CleanRun(slave, s.(mode := AddrPending), calls + [Close])
    ensures Run(slave, s, BracketOf(calls)) == Run(slave, s.(mode := AddrPending), calls + [Close])
  {
    var ops := BracketOf(calls);
    assert ops[0] == Open && Step(slave, s, Open) == s.(mode := AddrPending);
    assert ops[1..] == calls + [Close];
  }

  /** Every such bracket that starts on a free bus is clean, and the bus is free afterwards. */
  lemma BracketClean(slave: Slave, s: State, calls: seq<Op>)
    requires Polite(slave) && BusIdle(s.events) && AreCalls(calls) && AlwaysClean(calls)
    ensures var r := Run(slave, s, BracketOf(calls));
            CleanRun(slave, s, BracketOf(calls)) && BusIdle(r.events) && r.mode == Init
  {
    BracketFirst(slave, s, calls);
    CallsFine(slave, s.(mode := AddrPending), calls);
  }

  lemma BracketNotClean(s: State, calls: seq<Op>)
    requires BusIdle(s.events) && AreCalls(calls) && !AlwaysClean(calls)
    ensures !CleanRun(Zeros(), s, BracketOf(calls))
  {
    BracketFirst(Zeros(), s, calls);
    var o, ops := s.(mode := AddrPending), calls + [Close];
    assert ops[0] == calls[0] && ops[1..] == calls[1..] + [Close];
    CallsNotClean(Step(Zeros(), o, calls[0]), calls[1..]);
  }

  /** The brackets that are clean on a free bus for every slave that keeps the rules. */
  lemma BracketExact(s: State, calls: seq<Op>)
    requires BusIdle(s.events) && AreCalls(calls)
    ensures (forall slave :: Polite(slave) ==> CleanRun(slave, s, BracketOf(calls))) <==> AlwaysClean(calls)
  {
    if AlwaysClean(calls) {
      forall slave | Polite(slave) ensures CleanRun(slave, s, BracketOf(calls)) {
        BracketClean(slave, s, calls);
      }
    } else {
      ZerosPolite();
      BracketNotClean(s, calls);
    }
  }

  /** An address alone is clean for every slave if and only if it is a write address or the START byte. */
  lemma AddressOnly(s: State, a: bv8)
    requires BusIdle(s.events)
    ensures (forall slave :: Polite(slave) ==> CleanRun(slave, s, [Open, Write(a), Close]))
            <==> a & 0x01 == 0 || a == START_BYTE
  {
    assert [Open, Write(a), Close] == BracketOf([Write(a)]);
    BracketExact(s, [Write(a)]);
  }

  // ----- sessions

  predicate AreSession(session: seq<seq<Op>>) {
    forall i :: 0 <= i < |session| ==> AreCalls(session[i])
  }

  function SessionOps(session: seq<seq<Op>>): (ops: seq<Op>) {
    if session == [] then [] else BracketOf(session[0]) + SessionOps(session[1..])
  }

  predicate AllClean(session: seq<seq<Op>>)
    requires AreSession(session)
  {
    forall i :: 0 <= i < |session| ==> AlwaysClean(session[i])
  }

  /** A whole session of such brackets: every call is clean and the bus is free at the end. */
  lemma {:induction false} SessionClean(slave: Slave, s: State, session: seq<seq<Op>>)
    requires Polite(slave) && BusIdle(s.events) && AreSession(session) && AllClean(session)
    ensures CleanRun(slave, s, SessionOps(session)) && BusIdle(Run(slave, s, SessionOps(session)).events)
    decreases |session|
  {
    if session != [] {
      BracketClean(slave, s, session[0]);
      SessionClean(slave, Run(slave, s, BracketOf(session[0])), session[1..]);
      RunAppend(slave, s, BracketOf(session[0]), SessionOps(session[1..]));
      CleanAppend(slave, s, BracketOf(session[0]), SessionOps(session[1..]));
    }
  }

  lemma {:induction false} SessionNotClean(s: State, session: seq<seq<Op>>)
    requires BusIdle(s.events) && AreSession(session) && !AllClean(session)
    ensures !CleanRun(Zeros(), s, SessionOps(session))
    decreases |session|
  {
    CleanAppend(Zeros(), s, BracketOf(session[0]), SessionOps(session[1..]));
    if AlwaysClean(session[0]) {
      ZerosPolite();
      BracketClean(Zeros(), s, session[0]);
      SessionNotClean(Run(Zeros(), s, BracketOf(session[0])), session[1..]);
    } else {
      BracketNotClean(s, session[0]);
    }
  }

  /** The sessions that are clean for every slave that keeps the rules are those all of whose brackets are. */
  lemma SessionExact(s: State, session: seq<seq<Op>>)
    requires BusIdle(s.events) && AreSession(session)
    ensures (forall slave :: Polite(slave) ==> CleanRun(slave, s, SessionOps(session))) <==> AllClean(session)
  {
    if AllClean(session) {
      forall slave | Polite(slave) ensures CleanRun(slave, s, SessionOps(session)) {
        SessionClean(slave, s, session);
      }
    } else {
      ZerosPolite();
      SessionNotClean(s, session);
    }
  }

  // ----- brackets of one kind

  /** The calls of a bracket, its address first. */
  function CallsOf(b: Bracket): (calls: seq<Op>)
    ensures AreCalls(calls)
  {
    [Write(b.address)] + if b.WriteBracket? then Writes(b.data) else Reads(b.count)
  }

  /** A write address and nothing else. */
  predicate Probe(b: Bracket) {
    b.WriteBracket? && b.address & 0x01 == 0 && b.data == []
  }

  predicate Ordinary(b: Bracket) {
    WellFormed(b) || Probe(b)
  }

  /** A well-formed bracket is clean for every slave, and so is the probe for a write address. */
  lemma OrdinaryClean(b: Bracket)
    ensures Ops(b) == BracketOf(CallsOf(b))
    ensures Ordinary(b) ==> AlwaysClean(CallsOf(b))
  {
    if b.ReadBracket? && WellFormed(b) {
      assert CallsOf(b)[1..] == Reads(b.count);
    }
  }

  function LineOps(bs: seq<Bracket>): (ops: seq<Op>) {
    if bs == [] then [] else Ops(bs[0]) + LineOps(bs[1..])
  }

  function SessionOf(bs: seq<Bracket>): (session: seq<seq<Op>>)
    ensures AreSession(session)
  {
    seq(|bs|, i requires 0 <= i < |bs| => CallsOf(bs[i]))
  }

  lemma {:induction false} SameOps(bs: seq<Bracket>)
    ensures LineOps(bs) == SessionOps(SessionOf(bs))
    decreases |bs|
  {
    if bs != [] {
      OrdinaryClean(bs[0]);
      assert SessionOf(bs)[1..] == SessionOf(bs[1..]);
      SameOps(bs[1..]);
    }
  }

  /** A whole session of well-formed brackets and probes: every call is clean and the bus is free at the end. */
  lemma LineClean(slave: Slave, s: State, bs: seq<Bracket>)
    requires Polite(slave) && BusIdle(s.events) && forall i :: 0 <= i < |bs| ==> Ordinary(bs[i])
    ensures CleanRun(slave, s, LineOps(bs)) && BusIdle(Run(slave, s, LineOps(bs)).events)
  {
    SameOps(bs);
    forall i | 0 <= i < |bs| ensures AlwaysClean(SessionOf(bs)[i]) {
      OrdinaryClean(bs[i]);
    }
    SessionClean(slave, s, SessionOf(bs));
  }

  // ----- on the lines

  lemma MarksNext(events: seq<Event>, e: Event)
    ensures Marks(events + [e]) == Marks(events) + if e.Frame? then 0 else 1
  {
    assert (events + [e])[..|events|] == events;
  }

  lemma StartMarks(slave: Slave, events: seq<Event>, b: bv8)
    ensures Marks(AfterStart(slave, events, b)) == Marks(events) + 1
  {
    MarksNext(events, Start);
    MarksNext(events + [Start], Frame(Sent(slave, events + [Start], b)));
  }

  /** Bytes sent or taken change SDA only while SCL is low. */
  lemma {:induction false} TxMarks(slave: Slave, events: seq<Event>, buf: seq<bv8>)
    ensures Marks(AfterTx(slave, events, buf)) == Marks(events)
    decreases |buf|
  {
    if buf != [] {
      var f := Frame(Sent(slave, events, buf[0]));
      MarksNext(events, f);
      TxMarks(slave, events + [f], buf[1..]);
    }
  }

  lemma {:induction false} RxMarks(slave: Slave, events: seq<Event>, n: nat, ack: bool)
    ensures Marks(AfterRx(slave, events, n, ack)) == Marks(events)
    decreases n
  {
    if n > 0 {
      var f := Frame(Taken(slave, events, n > 1 || ack));
      MarksNext(events, f);
      RxMarks(slave, events + [f], n - 1, ack);
    }
  }

  /** Everything in the bracket is acknowledged that a slave can acknowledge. */
  predicate BracketAcked(slave: Slave, events: seq<Event>, b: Bracket) {
    && StartAcked(slave, events, b.address)
    && (b.WriteBracket? ==> TxAcked(slave, AfterStart(slave, events, b.address), b.data))
  }

  lemma BracketMarks(slave: Slave, events: seq<Event>, b: Bracket)
    requires WellFormed(b) && BracketAcked(slave, events, b)
    ensures Marks(BracketEvents(slave, events, b)) == Marks(events) + 2
  {
    var started := AfterStart(slave, events, b.address);
    StartMarks(slave, events, b.address);
    match b
    case WriteBracket(a, data) =>
      PrefixAcked(slave, started, data, |data| - 1);
      TxMarks(slave, started, data);
      MarksNext(AfterTx(slave, started, data), Stop);
    case ReadBracket(a, n) =>
      RxMarks(slave, started, n, false);
      MarksNext(AfterRx(slave, started, n, false), Stop);
  }

  lemma BracketRun(slave: Slave, s: State, b: Bracket)
    requires WellFormed(b)
    ensures var r := Run(slave, s, Ops(b));
            r.events == BracketEvents(slave, s.events, b) && r.out == s.out + BracketOut(slave, s.events, b)
  {
    if b.WriteBracket? {
      WriteBracketRun(slave, s, b);
    } else {
      ReadBracketRun(slave, s, b);
    }
  }

  /**
   A well-formed bracket on the program, from the calls down to the recorded line levels: they decode to the
   bracket, the user gets its bytes, the bus is released, and, if all is acknowledged, SDA changes while SCL is
   high just twice, at the START and at the STOP.
   */
  method Transfer(bus: Bus, b: Bracket)
    requires bus.Valid() && Undisturbed(bus.Now()) && BusIdle(bus.hw.seen.events) && Polite(bus.hw.slave) &&
             WellFormed(b)
    modifies bus, bus.hw
    ensures bus.Valid() && Undisturbed(bus.Now()) && !bus.hw.holdBus
    ensures Decode(bus.hw.wave).events == BracketEvents(bus.hw.slave, old(bus.hw.seen.events), b)
    ensures bus.out == old(bus.out) + BracketOut(bus.hw.slave, old(bus.hw.seen.events), b)
    ensures old(BracketAcked(bus.hw.slave, bus.hw.seen.events, b)) ==>
              Conditions(bus.hw.wave) == old(Conditions(bus.hw.wave)) + 2
  {
    ghost var s := bus.Now();
    OrdinaryClean(b);
    BracketClean(bus.hw.slave, Seen(s), CallsOf(b));
    RunClean(bus.hw.slave, s, Ops(b));
    BracketRun(bus.hw.slave, Seen(s), b);
    StableData(bus.hw.wave);
    Perform(bus, Ops(b));
    StableData(bus.hw.wave);
    if BracketAcked(bus.hw.slave, s.line.events, b) {
      BracketMarks(bus.hw.slave, s.line.events, b);
    }
  }

  /** An acknowledged write bracket on the program: the levels decode to START, address, data and STOP. */
  method TransferWrite(bus: Bus, a: bv8, data: seq<bv8>)
    requires bus.Valid() && Undisturbed(bus.Now()) && BusIdle(bus.hw.seen.events) && Polite(bus.hw.slave)
    requires WellFormed(WriteBracket(a, data)) && BracketAcked(bus.hw.slave, bus.hw.seen.events, WriteBracket(a, data))
    modifies bus, bus.hw
    ensures bus.Valid() && !bus.hw.holdBus
    ensures Decode(bus.hw.wave).events ==
              old(bus.hw.seen.events) + [Start, ByteFrame(a, true)] + (AckedFrames(data) + [Stop])
    ensures Conditions(bus.hw.wave) == old(Conditions(bus.hw.wave)) + 2
  {
    WriteBracketWire(bus.hw.slave, Seen(bus.Now()), a, data);
    WriteBracketRun(bus.hw.slave, Seen(bus.Now()), WriteBracket(a, data));
    assert data[..|data|] == data;
    assert TxFrames(data, |data|) == AckedFrames(data);
    Transfer(bus, WriteBracket(a, data));
  }

  /**
   What the line shows of an address alone, for any slave: the STOP is made if and only if the slave releases SDA
   behind the address; otherwise the slave keeps SDA low on a bus that the master takes for released.
   */
  lemma AddressOnlyLine(slave: Slave, s: BusState, a: bv8)
    requires Undisturbed(s) && BusIdle(s.line.events)
    ensures var started, r := AfterStart(slave, s.line.events, a), BusRun(slave, s, [Open, Write(a), Close]);
            r.line == if slave(started, []) then Line(started + [Stop], [], AtRest) else Line(started, [false], Stuck)
  {
    var o := s.(mode := StartPending, pending := a);
    var ops := [Open, Write(a), Close];
    assert BusRun(slave, s, ops) == BusRun(slave, s.(mode := AddrPending), ops[1..]);
    assert BusRun(slave, s.(mode := AddrPending), ops[1..]) == BusRun(slave, o, ops[1..][1..]);
    assert BusRun(slave, o, ops[1..][1..]) == BusRun(slave, BusClose(slave, o), ops[1..][1..][1..]);
    StartClean(slave, o);
    if slave(AfterStart(slave, s.line.events, a), []) {
      StopInStep(slave, Started(slave, o.line, a));
    }
  }

  // ----- calls out of place

  /**
   Bytes and reads outside every bracket, or after a failure inside one, and a bracket that begins with a read:
   none of them has an address to go to.
   */
  predicate Stray(s: State, calls: seq<Op>) {
    && AreCalls(calls) && calls != []
    && (s.mode == Init || s.mode == Error || (s.mode == AddrPending && calls[0].Read?))
  }

  /** What each of them shows instead: a START, the byte 0000 0001 without acknowledge, and a STOP. */
  function StrayEvents(n: nat): (r: seq<Event>) {
    if n == 0 then []
    else [Start, Frame([false, false, false, false, false, false, false, true, true]), Stop] + StrayEvents(n - 1)
  }

  lemma {:induction false} ClearFramesAre(n: nat)
    ensures ClearFrames(n) == StrayEvents(n)
  {
    if n > 0 {
      assert Bits(START_BYTE) + [true] == [false, false, false, false, false, false, false, true, true];
      ClearFramesAre(n - 1);
    }
  }

  lemma StrayRun(slave: Slave, s: State, calls: seq<Op>)
    requires Polite(slave) && Stray(s, calls)
    ensures Run(slave, s, calls) == s.(mode := Error, events := s.events + StrayEvents(|calls|))
  {
    var next := Step(slave, s, calls[0]);
    ErrorRun(slave, next, calls[1..]);
    PoliteClears(slave, s.events, |calls|);
    ClearFramesAre(|calls|);
  }

  /** They meet no held SDA on a free bus, and leave it free. */
  lemma StrayClean(slave: Slave, s: State, calls: seq<Op>)
    requires Polite(slave) && Stray(s, calls) && BusIdle(s.events)
    ensures CleanRun(slave, s, calls) && BusIdle(Run(slave, s, calls).events)
    decreases |calls|
  {
    ClearAllowed(slave, s.events);
    if |calls| > 1 {
      StrayClean(slave, Step(slave, s, calls[0]), calls[1..]);
    }
  }

  lemma StrayLine(slave: Slave, s: BusState, calls: seq<Op>)
    requires Undisturbed(s) && Polite(slave) && Stray(Seen(s), calls) && BusIdle(s.line.events)
    ensures var r := BusRun(slave, s, calls);
            && Undisturbed(r) && BusIdle(r.line.events) && r.mode == Error && r.out == s.out
            && r.line.events == s.line.events + StrayEvents(|calls|)
  {
    StrayRun(slave, Seen(s), calls);
    StrayClean(slave, Seen(s), calls);
    RunClean(slave, s, calls);
  }

  /**
   On the program, down to the recorded levels: no byte of the caller reaches the wire and none is handed over;
   the bracket that closes shows nothing.
   */
  method TransferStray(bus: Bus, calls: seq<Op>)
    requires bus.Valid() && Undisturbed(bus.Now()) && BusIdle(bus.hw.seen.events) && Polite(bus.hw.slave)
    requires Stray(Seen(bus.Now()), calls)
    modifies bus, bus.hw
    ensures bus.Valid() && Undisturbed(bus.Now()) && BusIdle(bus.hw.seen.events) && bus.mode == Init
    ensures Decode(bus.hw.wave).events == old(bus.hw.seen.events) + StrayEvents(|calls|) && bus.out == old(bus.out)
  {
    StrayLine(bus.hw.slave, bus.Now(), calls);
    Perform(bus, calls);
    bus.StopCondition();
  }

  // ----- a whole line on the wire

  /** The wire events of a bracket: a probe makes its STOP whether it is acknowledged or not. */
  function WireEvents(slave: Slave, events: seq<Event>, b: Bracket): (r: seq<Event>)
    requires Ordinary(b)
  {
    if Probe(b) then AfterStart(slave, events, b.address) + [Stop] else BracketEvents(slave, events, b)
  }

  lemma OrdinaryRun(slave: Slave, s: State, b: Bracket)
    requires Ordinary(b)
    ensures var r := Run(slave, s, Ops(b));
            r.events == WireEvents(slave, s.events, b) && r.out == s.out + BracketOut(slave, s.events, b)
  {
    if Probe(b) {
      Opened(slave, s, b, [Close]);
      RunOne(slave, s.(mode := StartPending, pending := b.address), Close);
    } else {
      BracketRun(slave, s, b);
    }
  }

  predicate AllOrdinary(bs: seq<Bracket>) {
    forall i :: 0 <= i < |bs| ==> Ordinary(bs[i])
  }

  /** The brackets of a line on the wire, one behind the other. */
  function LineEvents(slave: Slave, events: seq<Event>, bs: seq<Bracket>): (r: seq<Event>)
    requires AllOrdinary(bs)
    decreases |bs|
  {
    if bs == [] then events else LineEvents(slave, WireEvents(slave, events, bs[0]), bs[1..])
  }

  /** The bytes they hand to the user. */
  function LineOut(slave: Slave, events: seq<Event>, bs: seq<Bracket>): (r: seq<bv8>)
    requires AllOrdinary(bs)
    decreases |bs|
  {
    if bs == [] then []
    else BracketOut(slave, events, bs[0]) + LineOut(slave, WireEvents(slave, events, bs[0]), bs[1..])
  }

  /** A line makes the events of its brackets and hands over their bytes, for any slave. */
  lemma {:induction false} LineRun(slave: Slave, s: State, bs: seq<Bracket>)
    requires AllOrdinary(bs)
    ensures Run(slave, s, LineOps(bs)).events == LineEvents(slave, s.events, bs)
    ensures Run(slave, s, LineOps(bs)).out == s.out + LineOut(slave, s.events, bs)
    decreases |bs|
  {
    if bs != [] {
      var r := Run(slave, s, Ops(bs[0]));
      OrdinaryRun(slave, s, bs[0]);
      RunAppend(slave, s, Ops(bs[0]), LineOps(bs[1..]));
      LineRun(slave, r, bs[1..]);
      Concat(s.out, BracketOut(slave, s.events, bs[0]), LineOut(slave, r.events, bs[1..]));
    }
  }

  /** A line on the program: the recorded levels decode to its brackets, and the user gets their bytes. */
  method TransferLine(bus: Bus, ops: seq<Op>, ghost bs: seq<Bracket>)
    requires bus.Valid() && Undisturbed(bus.Now()) && BusIdle(bus.hw.seen.events) && Polite(bus.hw.slave)
    requires AllOrdinary(bs) && ops == LineOps(bs)
    modifies bus, bus.hw
    ensures bus.Valid() && Undisturbed(bus.Now()) && BusIdle(bus.hw.seen.events)
    ensures Decode(bus.hw.wave).events == LineEvents(bus.hw.slave, old(bus.hw.seen.events), bs)
    ensures bus.out == old(bus.out) + LineOut(bus.hw.slave, old(bus.hw.seen.events), bs)
  {
    ghost var s := bus.Now();
    LineClean(bus.hw.slave, Seen(s), bs);
    RunClean(bus.hw.slave, s, ops);
    LineRun(bus.hw.slave, Seen(s), bs);
    Perform(bus, ops);
  }
}
