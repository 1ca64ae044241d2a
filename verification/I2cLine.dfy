/**
 The bus as the master leaves it, for slaves that do anything with SDA: also for one that holds SDA low where the
 master wants to make a START or a STOP, so that none is made and frames run out of step.
 */
module I2cLine {
  import opened I2cWire

  /**
   Between two operations: both lines released; SCL low, the master in a transfer; or both lines released by the
   master, but SDA held low by the slave after a STOP that was not made.
   */
  datatype Hold = AtRest | Held | Stuck

  /** What was seen, the bits of the frame begun, and who holds what. */
  datatype Line = Line(events: seq<Event>, bits: seq<bool>, hold: Hold)

  predicate LineOk(l: Line) {
    |l.bits| < 9 && (l.hold == AtRest ==> l.bits == [])
  }

  /** Whether the slave releases SDA in the coming clock period. */
  predicate Quiet(slave: Slave, l: Line) {
    slave(l.events, l.bits)
  }

  /** One more sample: the ninth ends a frame. */
  function Sample(l: Line, x: bool): (r: Line)
    requires |l.bits| < 9
    ensures |r.bits| < 9 && r.hold == l.hold
  {
    var bits := l.bits + [x];
    if |bits| == 9 then Line(l.events + [Frame(bits)], [], l.hold) else Line(l.events, bits, l.hold)
  }

  /** One clock period in which the master drives `high`. */
  function Clocked(slave: Slave, l: Line, high: bool): (r: Line)
    requires |l.bits| < 9
    ensures |r.bits| < 9 && r.hold == l.hold
  {
    Sample(l, high && Quiet(slave, l))
  }

  /** Several clock periods. */
  function Clocks(slave: Slave, l: Line, mine: seq<bool>): (r: Line)
    requires |l.bits| < 9
    ensures |r.bits| < 9 && r.hold == l.hold
    decreases |mine|
  {
    if mine == [] then l else Clocks(slave, Clocked(slave, l, mine[0]), mine[1..])
  }

  /** The levels of SDA in these clock periods. */
  function Levels(slave: Slave, l: Line, mine: seq<bool>): (r: seq<bool>)
    requires |l.bits| < 9
    ensures |r| == |mine|
    decreases |mine|
  {
    if mine == [] then []
    else [mine[0] && Quiet(slave, l)] + Levels(slave, Clocked(slave, l, mine[0]), mine[1..])
  }

  // ----- operations

  /** A START, repeated in a transfer, if the slave lets SDA rise; in any case SCL is low behind it. */
  function StartMade(slave: Slave, l: Line): (r: Line)
    requires LineOk(l)
    ensures LineOk(r) && r.hold == Held
  {
    match l.hold
    case AtRest => Line(l.events + [Start], [], Held)
    case Stuck => l.(hold := Held)
    case Held =>
      var s := Sample(l, Quiet(slave, l));
      if Quiet(slave, l) then Line(s.events + [Start], [], Held) else s
  }

  /** A STOP, if the slave lets SDA rise. */
  function StopMade(slave: Slave, l: Line): (r: Line)
    requires LineOk(l)
    ensures LineOk(r) && r.hold == if Quiet(slave, l) then AtRest else Stuck
  {
    var s := Sample(l, false);
    if Quiet(slave, l) then Line(s.events + [Stop], [], AtRest) else s.(hold := Stuck)
  }

  /** A byte sent, and the level of SDA in the clock period of the acknowledge. */
  function ByteSent(slave: Slave, l: Line, b: bv8): (r: Line)
    requires LineOk(l) && l.hold == Held
    ensures LineOk(r) && r.hold == Held
  {
    Clocked(slave, Clocks(slave, l, Bits(b)), true)
  }

  predicate ByteAcked(slave: Slave, l: Line, b: bv8)
    requires LineOk(l) && l.hold == Held
  {
    !Quiet(slave, Clocks(slave, l, Bits(b)))
  }

  function Started(slave: Slave, l: Line, b: bv8): (r: Line)
    requires LineOk(l)
    ensures LineOk(r) && r.hold == Held
  {
    ByteSent(slave, StartMade(slave, l), b)
  }

  predicate StartedAcked(slave: Slave, l: Line, b: bv8)
    requires LineOk(l)
  {
    ByteAcked(slave, StartMade(slave, l), b)
  }

  /** The general-call START byte and a STOP. */
  function Cleared(slave: Slave, l: Line): (r: Line)
    requires LineOk(l)
    ensures LineOk(r)
  {
    StopMade(slave, Started(slave, l, 0x01))
  }

  /** Bytes sent up to the first without acknowledge. */
  function Transmitted(slave: Slave, l: Line, buf: seq<bv8>): (r: Line)
    requires LineOk(l) && l.hold == Held
    ensures LineOk(r) && r.hold == Held
    decreases |buf|
  {
    if buf == [] then l
    else
      var next := ByteSent(slave, l, buf[0]);
      if ByteAcked(slave, l, buf[0]) then Transmitted(slave, next, buf[1..]) else next
  }

  predicate AllAcked(slave: Slave, l: Line, buf: seq<bv8>)
    requires LineOk(l) && l.hold == Held
    decreases |buf|
  {
    buf == [] || (ByteAcked(slave, l, buf[0]) && AllAcked(slave, ByteSent(slave, l, buf[0]), buf[1..]))
  }

  /** A byte taken, and acknowledged or not. */
  function ByteTaken(slave: Slave, l: Line, ack: bool): (r: Line)
    requires LineOk(l) && l.hold == Held
    ensures LineOk(r) && r.hold == Held
  {
    Clocked(slave, Clocks(slave, l, Released(BITS)), !ack)
  }

  function ByteRead(slave: Slave, l: Line): (b: bv8)
    requires LineOk(l) && l.hold == Held
  {
    ShiftIn(Levels(slave, l, Released(BITS)))
  }

  function Received(slave: Slave, l: Line, n: nat, ack: bool): (r: Line)
    requires LineOk(l) && l.hold == Held
    ensures LineOk(r) && r.hold == Held
    decreases n
  {
    if n == 0 then l else Received(slave, ByteTaken(slave, l, n > 1 || ack), n - 1, ack)
  }

  function ReceivedBytes(slave: Slave, l: Line, n: nat, ack: bool): (r: seq<bv8>)
    requires LineOk(l) && l.hold == Held
    ensures |r| == n
    decreases n
  {
    if n == 0 then [] else [ByteRead(slave, l)] + ReceivedBytes(slave, ByteTaken(slave, l, n > 1 || ack), n - 1, ack)
  }

  // ----- frames in step

  /** The levels are what the wired AND of a frame gives, as long as the frame does not end among them. */
  lemma {:induction false} ClocksDrive(slave: Slave, l: Line, mine: seq<bool>)
    requires |l.bits| + |mine| < 9
    ensures Clocks(slave, l, mine) == l.(bits := Drive(slave, l.events, l.bits, mine))
    ensures l.bits + Levels(slave, l, mine) == Drive(slave, l.events, l.bits, mine)
    decreases |mine|
  {
    if mine != [] {
      var next := Clocked(slave, l, mine[0]);
      ClocksDrive(slave, next, mine[1..]);
      assert l.bits + ([mine[0] && Quiet(slave, l)] + Levels(slave, next, mine[1..])) ==
             next.bits + Levels(slave, next, mine[1..]);
    }
  }

  /** A whole frame sent in step. */
  lemma SentInStep(slave: Slave, events: seq<Event>, b: bv8)
    ensures var l, f := Line(events, [], Held), Sent(slave, events, b);
            ByteSent(slave, l, b) == Line(events + [Frame(f)], [], Held) && ByteAcked(slave, l, b) == Acked(f)
  {
    ClocksDrive(slave, Line(events, [], Held), Bits(b));
    DriveLast(slave, events, [], Bits(b), true);
  }

  /** A whole frame taken in step. */
  lemma TakenInStep(slave: Slave, events: seq<Event>, ack: bool)
    ensures var l, f := Line(events, [], Held), Taken(slave, events, ack);
            ByteTaken(slave, l, ack) == Line(events + [Frame(f)], [], Held) && ByteRead(slave, l) == Payload(f)
  {
    ClocksDrive(slave, Line(events, [], Held), Released(BITS));
    DriveLast(slave, events, [], Released(BITS), !ack);
    var eight := Drive(slave, events, [], Released(BITS));
    assert [] + Levels(slave, Line(events, [], Held), Released(BITS)) == eight;
    assert (eight + [!ack && slave(events, eight)])[..8] == eight;
  }

  // ----- what each operation puts on the wire when frames are in step

  function AfterStart(slave: Slave, events: seq<Event>, b: bv8): (r: seq<Event>) {
    events + [Start] + [Frame(Sent(slave, events + [Start], b))]
  }

  predicate StartAcked(slave: Slave, events: seq<Event>, b: bv8) {
    Acked(Sent(slave, events + [Start], b))
  }

  /** The frames of a write, up to the first byte that is not acknowledged. */
  function AfterTx(slave: Slave, events: seq<Event>, buf: seq<bv8>): (r: seq<Event>)
    decreases |buf|
  {
    if buf == [] then events
    else
      var f := Sent(slave, events, buf[0]);
      if Acked(f) then AfterTx(slave, events + [Frame(f)], buf[1..]) else events + [Frame(f)]
  }

  predicate TxAcked(slave: Slave, events: seq<Event>, buf: seq<bv8>)
    decreases |buf|
  {
    buf == [] ||
    (var f := Sent(slave, events, buf[0]);
     Acked(f) && TxAcked(slave, events + [Frame(f)], buf[1..]))
  }

  /** The frames of a read of n bytes; the last is acknowledged only if `ack`. */
  function AfterRx(slave: Slave, events: seq<Event>, n: nat, ack: bool): (r: seq<Event>)
    decreases n
  {
    if n == 0 then events else AfterRx(slave, events + [Frame(Taken(slave, events, n > 1 || ack))], n - 1, ack)
  }

  function RxBytes(slave: Slave, events: seq<Event>, n: nat, ack: bool): (r: seq<bv8>)
    ensures |r| == n
    decreases n
  {
    if n == 0 then []
    else
      var f := Taken(slave, events, n > 1 || ack);
      [Payload(f)] + RxBytes(slave, events + [Frame(f)], n - 1, ack)
  }

  /** Frames are in step, and no STOP is missing. */
  predicate InStep(l: Line) {
    l.bits == [] && l.hold != Stuck
  }

  lemma StartInStep(slave: Slave, l: Line, b: bv8)
    requires InStep(l) && (l.hold == Held ==> Quiet(slave, l))
    ensures Started(slave, l, b) == Line(AfterStart(slave, l.events, b), [], Held)
    ensures StartedAcked(slave, l, b) == StartAcked(slave, l.events, b)
  {
    SentInStep(slave, l.events + [Start], b);
  }

  lemma StopInStep(slave: Slave, l: Line)
    requires l.bits == [] && Quiet(slave, l)
    ensures StopMade(slave, l) == Line(l.events + [Stop], [], AtRest)
  {
  }

  lemma {:induction false} TransmitInStep(slave: Slave, events: seq<Event>, buf: seq<bv8>)
    ensures Transmitted(slave, Line(events, [], Held), buf) == Line(AfterTx(slave, events, buf), [], Held)
    ensures AllAcked(slave, Line(events, [], Held), buf) == TxAcked(slave, events, buf)
    decreases |buf|
  {
    if buf != [] {
      SentInStep(slave, events, buf[0]);
      TransmitInStep(slave, events + [Frame(Sent(slave, events, buf[0]))], buf[1..]);
    }
  }

  lemma {:induction false} ReceiveInStep(slave: Slave, events: seq<Event>, n: nat, ack: bool)
    ensures Received(slave, Line(events, [], Held), n, ack) == Line(AfterRx(slave, events, n, ack), [], Held)
    ensures ReceivedBytes(slave, Line(events, [], Held), n, ack) == RxBytes(slave, events, n, ack)
    decreases n
  {
    if n > 0 {
      TakenInStep(slave, events, n > 1 || ack);
      ReceiveInStep(slave, events + [Frame(Taken(slave, events, n > 1 || ack))], n - 1, ack);
    }
  }
}
