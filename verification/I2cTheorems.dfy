/**
 What whole brackets put on the wire, for a slave that keeps to the bus rules.
 */
module I2cTheorems {
  import opened Words
  import opened I2cWire
  import opened I2cLine
  import opened I2cBus

  // ----- slaves that keep to the rules

  /** Where a transfer is: who drives the data bits of the next frame. */
  datatype Phase = Idle | Addressing | Receiving | Sending | Deaf

  const START_BYTE: bv8 := 0x01

  function NextPhase(p: Phase, e: Event): (r: Phase) {
    match e
    case Start => Addressing
    case Stop => Idle
    case Frame(f) =>
      if |f| != 9 || f[8] then (if p == Idle then Idle else Deaf)
      else if p == Addressing then (if f[7] then Sending else Receiving)
      else p
  }

  function PhaseOf(events: seq<Event>): (r: Phase) {
    if events == [] then Idle else NextPhase(PhaseOf(events[..|events| - 1]), events[|events| - 1])
  }

  lemma PhaseNext(events: seq<Event>, e: Event)
    ensures PhaseOf(events + [e]) == NextPhase(PhaseOf(events), e)
  {
    assert (events + [e])[..|events|] == events;
  }

  ghost predicate PoliteAfter(slave: Slave, events: seq<Event>) {
    && (PhaseOf(events) != Sending ==> forall got :: |got| < 8 ==> slave(events, got))
    && (PhaseOf(events) == Sending ==> forall got :: |got| == 8 ==> slave(events, got))
    && (PhaseOf(events) == Addressing ==> slave(events, Bits(START_BYTE)))
  }

  /**
   The slave pulls SDA low only to acknowledge a byte of the master and to send data bits of its own, in a
   transfer that was addressed for reading and that the master keeps acknowledging. No slave acknowledges
   the START byte 0000 0001 (section 3.1.15 of UM10204).
   */
  ghost predicate Polite(slave: Slave) {
    forall events :: PoliteAfter(slave, events)
  }

  /** A byte of the master on the wire. */
  function ByteFrame(b: bv8, acked: bool): (e: Event) {
    Frame(Bits(b) + [!acked])
  }

  function AckedFrames(bytes: seq<bv8>): (r: seq<Event>) {
    if bytes == [] then [] else AckedFrames(bytes[..|bytes| - 1]) + [ByteFrame(bytes[|bytes| - 1], true)]
  }

  lemma AckedFramesNext(bytes: seq<bv8>, b: bv8)
    ensures AckedFrames(bytes + [b]) == AckedFrames(bytes) + [ByteFrame(b, true)]
  {
    assert (bytes + [b])[..|bytes|] == bytes;
  }

  lemma {:induction false} AckedFramesCons(b: bv8, bytes: seq<bv8>)
    ensures AckedFrames([b] + bytes) == [ByteFrame(b, true)] + AckedFrames(bytes)
  {
    if bytes == [] {
      assert [b] + bytes == [] + [b];
      AckedFramesNext([], b);
    } else {
      var n := |bytes| - 1;
      AckedFramesCons(b, bytes[..n]);
      assert [b] + bytes == ([b] + bytes[..n]) + [bytes[n]];
      AckedFramesNext([b] + bytes[..n], bytes[n]);
    }
  }

  /** A byte sent while the slave listens appears on the wire bit for bit. */
  lemma PoliteSend(slave: Slave, events: seq<Event>, b: bv8)
    requires Polite(slave) && PhaseOf(events) != Sending
    ensures var f := Sent(slave, events, b); Frame(f) == ByteFrame(b, Acked(f)) && (f[7] <==> b & 0x01 != 0)
  {
    assert PoliteAfter(slave, events);
    UndisturbedSend(slave, events, b);
  }

  /** After a START, the address byte decides the phase. */
  lemma PoliteStart(slave: Slave, events: seq<Event>, b: bv8)
    requires Polite(slave)
    ensures AfterStart(slave, events, b) == events + [Start, ByteFrame(b, StartAcked(slave, events, b))]
    ensures PhaseOf(AfterStart(slave, events, b)) ==
              if !StartAcked(slave, events, b) then Deaf else if b & 0x01 != 0 then Sending else Receiving
  {
    PhaseNext(events, Start);
    PoliteSend(slave, events + [Start], b);
    PhaseNext(events + [Start], Frame(Sent(slave, events + [Start], b)));
    assert events + [Start] + [Frame(Sent(slave, events + [Start], b))]
        == events + [Start, Frame(Sent(slave, events + [Start], b))];
  }

  /** How many bytes of a write are acknowledged before the first that is not. */
  function AckedCount(slave: Slave, events: seq<Event>, buf: seq<bv8>): (k: nat)
    ensures k <= |buf| && (k == |buf| <==> TxAcked(slave, events, buf))
    decreases |buf|
  {
    if buf == [] then 0
    else
      var f := Sent(slave, events, buf[0]);
      if Acked(f) then 1 + AckedCount(slave, events + [Frame(f)], buf[1..]) else 0
  }

  /** The frames of a write of `buf` of which the first k bytes are acknowledged. */
  function TxFrames(buf: seq<bv8>, k: nat): (r: seq<Event>)
    requires k <= |buf|
  {
    AckedFrames(buf[..k]) + if k < |buf| then [ByteFrame(buf[k], false)] else []
  }

  lemma Assoc(x: seq<Event>, e: Event, y: seq<Event>)
    ensures x + [e] + y == x + ([e] + y)
  {
  }

  lemma TxFramesCons(buf: seq<bv8>, k: nat)
    requires k < |buf|
    ensures TxFrames(buf, k + 1) == [ByteFrame(buf[0], true)] + TxFrames(buf[1..], k)
  {
    assert buf[..k + 1] == [buf[0]] + buf[1..][..k];
    AckedFramesCons(buf[0], buf[1..][..k]);
  }

  /** A write shows the bytes up to and including the first that is not acknowledged, and nothing else. */
  lemma {:induction false} PoliteTx(slave: Slave, events: seq<Event>, buf: seq<bv8>)
    requires Polite(slave) && PhaseOf(events) == Receiving
    ensures AfterTx(slave, events, buf) == events + TxFrames(buf, AckedCount(slave, events, buf))
    ensures PhaseOf(AfterTx(slave, events, buf)) == if TxAcked(slave, events, buf) then Receiving else Deaf
    decreases |buf|
  {
    if buf == [] {
      assert TxFrames(buf, 0) == [];
    } else {
      var f := Sent(slave, events, buf[0]);
      PoliteSend(slave, events, buf[0]);
      PhaseNext(events, Frame(f));
      if Acked(f) {
        var k := AckedCount(slave, events + [Frame(f)], buf[1..]);
        PoliteTx(slave, events + [Frame(f)], buf[1..]);
        TxFramesCons(buf, k);
        Assoc(events, Frame(f), TxFrames(buf[1..], k));
      } else {
        assert TxFrames(buf, 0) == [Frame(f)];
      }
    }
  }

  /** A frame the master takes while the slave sends carries the master's acknowledge. */
  lemma PoliteTake(slave: Slave, events: seq<Event>, ack: bool)
    requires Polite(slave) && PhaseOf(events) == Sending
    ensures Acked(Taken(slave, events, ack)) == ack
    ensures PhaseOf(events + [Frame(Taken(slave, events, ack))]) == if ack then Sending else Deaf
  {
    assert PoliteAfter(slave, events);
    UndisturbedTake(slave, events, ack);
    PhaseNext(events, Frame(Taken(slave, events, ack)));
  }

  /** The i-th frame of a read of n bytes: the byte handed over, acknowledged unless it is the last. */
  predicate ReadFrame(e: Event, b: bv8, last: bool) {
    e.Frame? && |e.bits| == 9 && Payload(e.bits) == b && Acked(e.bits) == !last
  }

  /** In a read of n bytes, exactly the last one is left without acknowledge. */
  lemma {:induction false} PoliteRx(slave: Slave, events: seq<Event>, n: nat)
    requires Polite(slave) && PhaseOf(events) == Sending && n > 0
    ensures |AfterRx(slave, events, n, false)| == |events| + n
    ensures AfterRx(slave, events, n, false)[..|events|] == events
    ensures PhaseOf(AfterRx(slave, events, n, false)) == Deaf
    ensures forall i :: 0 <= i < n ==>
              ReadFrame(AfterRx(slave, events, n, false)[|events| + i], RxBytes(slave, events, n, false)[i], i == n - 1)
    decreases n
  {
    var f := Taken(slave, events, n > 1);
    var r, bytes := AfterRx(slave, events, n, false), RxBytes(slave, events, n, false);
    PoliteTake(slave, events, n > 1);
    if n > 1 {
      var events' := events + [Frame(f)];
      PoliteRx(slave, events', n - 1);
      assert r == AfterRx(slave, events', n - 1, false);
      assert bytes == [Payload(f)] + RxBytes(slave, events', n - 1, false);
      assert r[..|events'|] == events';
      assert r[..|events|] == events'[..|events|];
      forall i | 0 <= i < n ensures ReadFrame(r[|events| + i], bytes[i], i == n - 1) {
        if i == 0 {
          assert r[|events|] == events'[|events|];
        } else {
          assert ReadFrame(r[|events'| + (i - 1)], RxBytes(slave, events', n - 1, false)[i - 1], i - 1 == n - 2);
        }
      }
    } else {
      assert r == events + [Frame(f)];
    }
  }

  // ----- brackets

  /** A bracket of a command line: an address byte, then bytes to write or a number of reads. */
  datatype Bracket = WriteBracket(address: bv8, data: seq<bv8>) | ReadBracket(address: bv8, count: nat)

  function Writes(data: seq<bv8>): (ops: seq<Op>) {
    seq(|data|, i requires 0 <= i < |data| => Write(data[i]))
  }

  function Reads(n: nat): (ops: seq<Op>) {
    seq(n, _ => Read)
  }

  function Ops(b: Bracket): (ops: seq<Op>) {
    match b
    case WriteBracket(a, data) => [Open, Write(a)] + Writes(data) + [Close]
    case ReadBracket(a, n) => [Open, Write(a)] + Reads(n) + [Close]
  }

  /** The address says what the bracket does, and there is something to do. */
  predicate WellFormed(b: Bracket) {
    match b
    case WriteBracket(a, data) => a & 0x01 == 0 && data != []
    case ReadBracket(a, n) => a & 0x01 != 0 && n > 0
  }

  /** n times the general-call START byte and a STOP, which is how the bus is cleared. */
  function Clears(slave: Slave, events: seq<Event>, n: nat): (r: seq<Event>)
    decreases n
  {
    if n == 0 then events else Clears(slave, AfterClear(slave, events), n - 1)
  }

  /** In the error mode, every further byte or read only clears the bus once more. */
  lemma {:induction false} ErrorRun(slave: Slave, s: State, ops: seq<Op>)
    requires s.mode == Error && forall i :: 0 <= i < |ops| ==> ops[i].Write? || ops[i].Read?
    ensures Run(slave, s, ops) == s.(events := Clears(slave, s.events, |ops|))
    decreases |ops|
  {
    if ops != [] {
      ErrorRun(slave, Step(slave, s, ops[0]), ops[1..]);
    }
  }

  /** Where the deferred writes stand when `sent` has happened and a byte is pending, refused if any more are left. */
  function Outcome(slave: Slave, s: State, sent: seq<Event>, left: nat, pending: bv8): (r: State) {
    if left == 0 then s.(events := sent, pending := pending)
    else s.(mode := Error, events := Clears(slave, sent, left), pending := pending)
  }

  /** Where the deferred writes stand after `data`, if `bytes` are all the bytes to be sent by then. */
  function AfterWrites(slave: Slave, s: State, bytes: seq<bv8>, last: bv8): (r: State) {
    var k := AckedCount(slave, s.events, bytes);
    Outcome(slave, s, AfterTx(slave, s.events, bytes), |bytes| - k, if k == |bytes| then last else bytes[k])
  }

  lemma AckedCountStep(slave: Slave, events: seq<Event>, bytes: seq<bv8>)
    requires bytes != []
    ensures var f := Sent(slave, events, bytes[0]);
            if Acked(f) then
              && AckedCount(slave, events, bytes) == 1 + AckedCount(slave, events + [Frame(f)], bytes[1..])
              && AfterTx(slave, events, bytes) == AfterTx(slave, events + [Frame(f)], bytes[1..])
            else AckedCount(slave, events, bytes) == 0 && AfterTx(slave, events, bytes) == events + [Frame(f)]
  {
  }

  lemma SameOutcome(slave: Slave, s: State, next: State, sent: seq<Event>, bytes: seq<bv8>, last: bv8, k: nat)
    requires next.mode == s.mode && next.out == s.out && bytes != [] && k < |bytes|
    ensures Outcome(slave, s, sent, |bytes| - (1 + k), if 1 + k == |bytes| then last else bytes[1 + k])
         == Outcome(slave, next, sent, |bytes[1..]| - k, if k == |bytes[1..]| then last else bytes[1..][k])
  {
  }

  lemma TxOne(slave: Slave, events: seq<Event>, b: bv8)
    ensures var f := Sent(slave, events, b);
            AfterTx(slave, events, [b]) == events + [Frame(f)] && TxAcked(slave, events, [b]) == Acked(f)
  {
    assert [b][1..] == [];
  }

  lemma {:induction false} AfterWritesAcked(slave: Slave, s: State, bytes: seq<bv8>, last: bv8, c: bv8)
    requires s.mode == WriteDataPending && bytes != [] && bytes[0] == s.pending &&
             Acked(Sent(slave, s.events, s.pending))
    ensures AfterWrites(slave, s, bytes, last) == AfterWrites(slave, Step(slave, s, Write(c)), bytes[1..], last)
  {
    TxOne(slave, s.events, s.pending);
    AckedCountStep(slave, s.events, bytes);
    var next := Step(slave, s, Write(c));
    SameOutcome(slave, s, next, AfterTx(slave, next.events, bytes[1..]), bytes, last,
                AckedCount(slave, next.events, bytes[1..]));
  }

  lemma ClearsFirst(slave: Slave, events: seq<Event>, n: nat)
    requires n > 0
    ensures Clears(slave, events, n) == Clears(slave, AfterClear(slave, events), n - 1)
  {
  }

  lemma {:induction false} AfterWritesRefused(slave: Slave, s: State, bytes: seq<bv8>, last: bv8, c: bv8)
    requires s.mode == WriteDataPending && bytes != [] && bytes[0] == s.pending &&
             !Acked(Sent(slave, s.events, s.pending))
    ensures AfterWrites(slave, s, bytes, last) ==
            s.(mode := Error, events := Clears(slave, Step(slave, s, Write(c)).events, |bytes| - 1))
  {
    TxOne(slave, s.events, s.pending);
    AckedCountStep(slave, s.events, bytes);
    ClearsFirst(slave, AfterTx(slave, s.events, bytes), |bytes|);
  }

  lemma AfterWritesStep(slave: Slave, s: State, bytes: seq<bv8>, last: bv8, c: bv8)
    requires s.mode == WriteDataPending && bytes != [] && bytes[0] == s.pending
    ensures TxAcked(slave, s.events, [s.pending]) ==>
              AfterWrites(slave, s, bytes, last) == AfterWrites(slave, Step(slave, s, Write(c)), bytes[1..], last)
    ensures !TxAcked(slave, s.events, [s.pending]) ==>
              AfterWrites(slave, s, bytes, last) ==
                s.(mode := Error, events := Clears(slave, Step(slave, s, Write(c)).events, |bytes| - 1))
  {
    TxOne(slave, s.events, s.pending);
    if Acked(Sent(slave, s.events, s.pending)) {
      AfterWritesAcked(slave, s, bytes, last, c);
    } else {
      AfterWritesRefused(slave, s, bytes, last, c);
    }
  }

  /**
   The deferred writes: as long as all is acknowledged, the bytes sent and the pending byte are, together,
   exactly the bytes given. At the first byte without acknowledge the rest of the calls only clear the bus.
   */
  lemma {:induction false} WritesRun(slave: Slave, s: State, data: seq<bv8>, bytes: seq<bv8>, last: bv8)
    requires s.mode == WriteDataPending && [s.pending] + data == bytes + [last]
    ensures Run(slave, s, Writes(data)) == AfterWrites(slave, s, bytes, last)
    decreases |data|
  {
    assert |data| == |bytes|;
    if data != [] {
      var ops := Writes(data);
      var next := Step(slave, s, ops[0]);
      assert bytes[0] == ([s.pending] + data)[0];
      assert [data[0]] + data[1..] == ([s.pending] + data)[1..] == (bytes + [last])[1..] == bytes[1..] + [last];
      assert ops[1..] == Writes(data[1..]);
      AfterWritesStep(slave, s, bytes, last, data[0]);
      if TxAcked(slave, s.events, [s.pending]) {
        WritesRun(slave, next, data[1..], bytes[1..], last);
      } else {
        ErrorRun(slave, next, ops[1..]);
      }
    } else {
      assert last == ([s.pending] + data)[0];
    }
  }

  lemma {:induction false} TxAppend(slave: Slave, events: seq<Event>, x: seq<bv8>, b: bv8)
    requires TxAcked(slave, events, x)
    ensures AfterTx(slave, events, x + [b]) == AfterTx(slave, AfterTx(slave, events, x), [b])
    decreases |x|
  {
    if x == [] {
      assert x + [b] == [b];
    } else {
      assert (x + [b])[1..] == x[1..] + [b];
      TxAppend(slave, events + [Frame(Sent(slave, events, x[0]))], x[1..], b);
    }
  }

  /** What a bracket puts on the wire. */
  function BracketEvents(slave: Slave, events: seq<Event>, b: Bracket): (r: seq<Event>)
    requires WellFormed(b)
  {
    var started := AfterStart(slave, events, b.address);
    match b
    case WriteBracket(a, data) =>
      var n := |data| - 1;
      var k := AckedCount(slave, started, data[..n]);
      if !StartAcked(slave, events, a) then Clears(slave, started, |data|)
      else if k < n then Clears(slave, AfterTx(slave, started, data[..n]), n - k)
      else AfterTx(slave, started, data) + [Stop]
    case ReadBracket(a, n) =>
      if !StartAcked(slave, events, a) then Clears(slave, started, n)
      else AfterRx(slave, started, n, false) + [Stop]
  }

  /** What a bracket hands to the user. */
  function BracketOut(slave: Slave, events: seq<Event>, b: Bracket): (r: seq<bv8>) {
    if b.ReadBracket? && StartAcked(slave, events, b.address)
    then RxBytes(slave, AfterStart(slave, events, b.address), b.count, false) else []
  }

  /** Open and address: nothing on the wire yet. */
  lemma Opened(slave: Slave, s: State, b: Bracket, rest: seq<Op>)
    requires Ops(b) == [Open, Write(b.address)] + rest
    ensures var o := s.(mode := StartPending, pending := b.address);
            Run(slave, s, Ops(b)) == Run(slave, o, rest) && (CleanRun(slave, s, Ops(b)) <==> CleanRun(slave, o, rest))
  {
    var ops := Ops(b);
    assert ops[0] == Open && ops[1..][0] == Write(b.address) && ops[1..][1..] == rest;
  }

  lemma RunOne(slave: Slave, s: State, op: Op)
    ensures Run(slave, s, [op]) == Step(slave, s, op) && (CleanRun(slave, s, [op]) <==> Clean(slave, s, op))
  {
    assert [op][1..] == [];
  }

  lemma FirstAndLast(data: seq<bv8>, n: nat)
    requires |data| == n + 1
    ensures [data[0]] + data[1..] == data[..n] + [data[n]]
  {
  }

  lemma WritesFirst(slave: Slave, o: State, data: seq<bv8>)
    requires data != []
    ensures Run(slave, o, Writes(data)) == Run(slave, Step(slave, o, Write(data[0])), Writes(data[1..]))
  {
    assert Writes(data)[0] == Write(data[0]) && Writes(data)[1..] == Writes(data[1..]);
  }

  /** The writes of a bracket, from the address on. */
  lemma WriteCallsRun(slave: Slave, o: State, data: seq<bv8>, n: nat)
    requires o.mode == StartPending && |data| == n + 1
    ensures StartAcked(slave, o.events, o.pending) ==>
              Run(slave, o, Writes(data)) == AfterWrites(slave, Step(slave, o, Write(data[0])), data[..n], data[n])
    ensures !StartAcked(slave, o.events, o.pending) ==>
              Run(slave, o, Writes(data)) ==
                o.(mode := Error, events := Clears(slave, AfterStart(slave, o.events, o.pending), n + 1))
  {
    var next := Step(slave, o, Write(data[0]));
    WritesFirst(slave, o, data);
    if StartAcked(slave, o.events, o.pending) {
      FirstAndLast(data, n);
      WritesRun(slave, next, data[1..], data[..n], data[n]);
    } else {
      ErrorRun(slave, next, Writes(data[1..]));
      ClearsFirst(slave, AfterStart(slave, o.events, o.pending), n + 1);
    }
  }

  lemma WholeTx(slave: Slave, events: seq<Event>, data: seq<bv8>, n: nat)
    requires |data| == n + 1 && AckedCount(slave, events, data[..n]) == n
    ensures AfterTx(slave, events, data) == AfterTx(slave, AfterTx(slave, events, data[..n]), [data[n]])
  {
    TxAppend(slave, events, data[..n], data[n]);
    assert data == data[..n] + [data[n]];
  }

  lemma OutcomeClosed(slave: Slave, next: State, sent: seq<Event>, left: nat, pending: bv8)
    requires next.mode == WriteDataPending
    ensures var r := Step(slave, Outcome(slave, next, sent, left, pending), Close);
            && r.mode == Init && r.out == next.out
            && r.events == if left == 0 then AfterTx(slave, sent, [pending]) + [Stop] else Clears(slave, sent, left)
  {
  }

  /** The end of the writes: the last byte and a STOP, or nothing more after a refusal. */
  lemma WritesClosed(slave: Slave, next: State, data: seq<bv8>, n: nat)
    requires next.mode == WriteDataPending && |data| == n + 1
    ensures var r := Step(slave, AfterWrites(slave, next, data[..n], data[n]), Close);
            var k := AckedCount(slave, next.events, data[..n]);
            && r.mode == Init && r.out == next.out
            && r.events == if k < n then Clears(slave, AfterTx(slave, next.events, data[..n]), n - k)
                           else AfterTx(slave, next.events, data) + [Stop]
  {
    var k := AckedCount(slave, next.events, data[..n]);
    OutcomeClosed(slave, next, AfterTx(slave, next.events, data[..n]), n - k, if k == n then data[n] else data[k]);
    if k == n {
      WholeTx(slave, next.events, data, n);
    }
  }

  lemma WriteBracketRun(slave: Slave, s: State, b: Bracket)
    requires WellFormed(b) && b.WriteBracket?
    ensures var r := Run(slave, s, Ops(b));
            r.mode == Init && r.events == BracketEvents(slave, s.events, b) && r.out == s.out
  {
    Opened(slave, s, b, Writes(b.data) + [Close]);
    var o, n := s.(mode := StartPending, pending := b.address), |b.data| - 1;
    RunAppend(slave, o, Writes(b.data), [Close]);
    WriteCallsRun(slave, o, b.data, n);
    RunOne(slave, Run(slave, o, Writes(b.data)), Close);
    if StartAcked(slave, s.events, b.address) {
      WritesClosed(slave, Step(slave, o, Write(b.data[0])), b.data, n);
    }
  }

  lemma RxFirst(slave: Slave, events: seq<Event>, n: nat)
    requires n > 1
    ensures var f := Taken(slave, events, true);
            && AfterRx(slave, events, 1, true) == events + [Frame(f)] && RxBytes(slave, events, 1, true) == [Payload(f)]
            && AfterRx(slave, events, n, false) == AfterRx(slave, events + [Frame(f)], n - 1, false)
            && RxBytes(slave, events, n, false) == [Payload(f)] + RxBytes(slave, events + [Frame(f)], n - 1, false)
  {
    assert AfterRx(slave, events, 1, true) == AfterRx(slave, events + [Frame(Taken(slave, events, true))], 0, true);
  }

  /** Acknowledged reads, one call each, come to the reads of one long transfer but for the last. */
  lemma {:induction false} ReadsRun(slave: Slave, s: State, n: nat)
    requires s.mode == ReadDataPending
    ensures var r := Run(slave, s, Reads(n));
            && r.mode == ReadDataPending
            && AfterRx(slave, r.events, 1, false) == AfterRx(slave, s.events, n + 1, false)
            && r.out + RxBytes(slave, r.events, 1, false) == s.out + RxBytes(slave, s.events, n + 1, false)
    decreases n
  {
    if n > 0 {
      var ops := Reads(n);
      var next := Step(slave, s, ops[0]);
      assert ops[1..] == Reads(n - 1);
      ReadsRun(slave, next, n - 1);
      RxFirst(slave, s.events, n + 1);
      assert s.out + ([Payload(Taken(slave, s.events, true))] + RxBytes(slave, next.events, n, false))
          == s.out + [Payload(Taken(slave, s.events, true))] + RxBytes(slave, next.events, n, false);
    } else {
      assert Reads(0) == [];
    }
  }

  /** The reads of a bracket, from the address on. */
  lemma ReadCallsRun(slave: Slave, o: State, n: nat)
    requires o.mode == StartPending && n > 0
    ensures var started := AfterStart(slave, o.events, o.pending);
            var r := Run(slave, o, Reads(n));
            if StartAcked(slave, o.events, o.pending)
            then && r.mode == ReadDataPending
                 && AfterRx(slave, r.events, 1, false) == AfterRx(slave, started, n, false)
                 && r.out + RxBytes(slave, r.events, 1, false) == o.out + RxBytes(slave, started, n, false)
            else r == o.(mode := Error, events := Clears(slave, started, n))
  {
    var started := Step(slave, o, Read);
    assert Reads(n)[1..] == Reads(n - 1) && Reads(n)[0] == Read;
    if StartAcked(slave, o.events, o.pending) {
      ReadsRun(slave, started, n - 1);
    } else {
      ErrorRun(slave, started, Reads(n - 1));
    }
  }

  lemma ReadBracketRun(slave: Slave, s: State, b: Bracket)
    requires WellFormed(b) && b.ReadBracket?
    ensures var r := Run(slave, s, Ops(b));
            && r.mode == Init && r.events == BracketEvents(slave, s.events, b)
            && r.out == s.out + BracketOut(slave, s.events, b)
  {
    var n := b.count;
    Opened(slave, s, b, Reads(n) + [Close]);
    var o := s.(mode := StartPending, pending := b.address);
    RunAppend(slave, o, Reads(n), [Close]);
    ReadCallsRun(slave, o, n);
    RunOne(slave, Run(slave, o, Reads(n)), Close);
  }

  // ----- what brackets show on the wire of a polite slave

  /** One clearing of the bus: a START, the START byte without acknowledge, a STOP. */
  lemma PoliteClear(slave: Slave, events: seq<Event>)
    requires Polite(slave)
    ensures AfterClear(slave, events) == events + [Start, ByteFrame(START_BYTE, false), Stop]
    ensures !StartAcked(slave, events, START_BYTE)
    ensures PhaseOf(AfterClear(slave, events)) == Idle && PhaseOf(AfterStart(slave, events, START_BYTE)) == Deaf
  {
    PhaseNext(events, Start);
    assert PoliteAfter(slave, events + [Start]);
    UndisturbedSend(slave, events + [Start], START_BYTE);
    PoliteStart(slave, events, START_BYTE);
    PhaseNext(AfterStart(slave, events, START_BYTE), Stop);
  }

  function ClearFrames(n: nat): (r: seq<Event>) {
    if n == 0 then [] else [Start, ByteFrame(START_BYTE, false), Stop] + ClearFrames(n - 1)
  }

  lemma {:induction false} PoliteClears(slave: Slave, events: seq<Event>, n: nat)
    requires Polite(slave)
    ensures Clears(slave, events, n) == events + ClearFrames(n)
    ensures n > 0 ==> PhaseOf(Clears(slave, events, n)) == Idle
    decreases n
  {
    if n > 0 {
      PoliteClear(slave, events);
      PoliteClears(slave, AfterClear(slave, events), n - 1);
      assert events + [Start, ByteFrame(START_BYTE, false), Stop] + ClearFrames(n - 1) == events + ClearFrames(n);
    }
  }

  /** The frames of a write bracket after its address, when the first k data bytes are acknowledged. */
  function WriteFrames(data: seq<bv8>, addressed: bool, k: nat): (r: seq<Event>)
    requires k <= |data| && data != []
  {
    if !addressed then ClearFrames(|data|)
    else if k >= |data| - 1 then TxFrames(data, k) + [Stop]
    else TxFrames(data, k) + ClearFrames(|data| - 1 - k)
  }

  lemma WriteEventsAre(slave: Slave, events: seq<Event>, a: bv8, data: seq<bv8>, n: nat)
    requires WellFormed(WriteBracket(a, data)) && StartAcked(slave, events, a) && n == |data| - 1
    ensures var started := AfterStart(slave, events, a);
            var k := AckedCount(slave, started, data[..n]);
            BracketEvents(slave, events, WriteBracket(a, data)) ==
              if k < n then Clears(slave, AfterTx(slave, started, data[..n]), n - k)
              else AfterTx(slave, started, data) + [Stop]
  {
  }

  lemma {:induction false} PrefixAcked(slave: Slave, events: seq<Event>, buf: seq<bv8>, n: nat)
    requires n <= |buf|
    ensures var k, p := AckedCount(slave, events, buf), AckedCount(slave, events, buf[..n]); p == if k < n then k else n
    decreases n
  {
    if n > 0 {
      assert buf[..n][0] == buf[0] && buf[..n][1..] == buf[1..][..n - 1];
      AckedCountStep(slave, events, buf);
      AckedCountStep(slave, events, buf[..n]);
      PrefixAcked(slave, events + [Frame(Sent(slave, events, buf[0]))], buf[1..], n - 1);
    }
  }

  lemma {:induction false} WrittenFrames(slave: Slave, started: seq<Event>, data: seq<bv8>, n: nat, k: nat)
    requires Polite(slave) && PhaseOf(started) == Receiving && |data| == n + 1 && k == AckedCount(slave, started, data)
    ensures AckedCount(slave, started, data[..n]) == if k < n then k else n
    ensures k < n ==>
              Clears(slave, AfterTx(slave, started, data[..n]), n - k) ==
              started + (TxFrames(data, k) + ClearFrames(n - k))
    ensures k >= n ==> AfterTx(slave, started, data) + [Stop] == started + (TxFrames(data, k) + [Stop])
  {
    PrefixAcked(slave, started, data, n);
    PoliteTx(slave, started, data);
    PoliteTx(slave, started, data[..n]);
    if k < n {
      assert data[..n][..k] == data[..k];
      PoliteClears(slave, AfterTx(slave, started, data[..n]), n - k);
      Concat(started, TxFrames(data, k), ClearFrames(n - k));
    } else {
      Concat(started, TxFrames(data, k), [Stop]);
    }
  }

  lemma {:induction false} AddressedFrames(slave: Slave, events: seq<Event>, a: bv8, data: seq<bv8>, n: nat, k: nat)
    requires Polite(slave) && WellFormed(WriteBracket(a, data)) && StartAcked(slave, events, a) && n == |data| - 1
    requires k == AckedCount(slave, AfterStart(slave, events, a), data)
    requires PhaseOf(AfterStart(slave, events, a)) == Receiving
    ensures BracketEvents(slave, events, WriteBracket(a, data)) ==
            AfterStart(slave, events, a) + WriteFrames(data, true, k)
  {
    var started := AfterStart(slave, events, a);
    WrittenFrames(slave, started, data, n, k);
    WriteEventsAre(slave, events, a, data, n);
    assert WriteFrames(data, true, k) == TxFrames(data, k) + if k < n then ClearFrames(n - k) else [Stop];
  }

  lemma {:induction false} WriteBracketFrames(slave: Slave, events: seq<Event>, a: bv8, data: seq<bv8>)
    requires Polite(slave) && WellFormed(WriteBracket(a, data))
    ensures BracketEvents(slave, events, WriteBracket(a, data)) ==
              AfterStart(slave, events, a) +
              WriteFrames(data, StartAcked(slave, events, a), AckedCount(slave, AfterStart(slave, events, a), data))
  {
    if StartAcked(slave, events, a) {
      PoliteStart(slave, events, a);
      AddressedFrames(slave, events, a, data, |data| - 1, AckedCount(slave, AfterStart(slave, events, a), data));
    } else {
      PoliteClears(slave, AfterStart(slave, events, a), |data|);
    }
  }

  /**
   A write bracket on the wire. With everything up to the last byte acknowledged: START, address, the bytes
   in order, STOP. Otherwise: START and the bytes up to the first one without acknowledge, and from there on
   no byte of the caller, only one clearing of the bus for each call that is left.
   */
  lemma WriteBracketWire(slave: Slave, s: State, a: bv8, data: seq<bv8>)
    requires Polite(slave) && WellFormed(WriteBracket(a, data))
    ensures Run(slave, s, Ops(WriteBracket(a, data))).mode == Init
    ensures Run(slave, s, Ops(WriteBracket(a, data))).events ==
              s.events + [Start, ByteFrame(a, StartAcked(slave, s.events, a))] +
              WriteFrames(data, StartAcked(slave, s.events, a), AckedCount(slave, AfterStart(slave, s.events, a), data))
  {
    WriteBracketRun(slave, s, WriteBracket(a, data));
    PoliteStart(slave, s.events, a);
    WriteBracketFrames(slave, s.events, a, data);
  }

  predicate ReadFrames(frames: seq<Event>, bytes: seq<bv8>) {
    |frames| == |bytes| && forall i :: 0 <= i < |frames| ==> ReadFrame(frames[i], bytes[i], i == |frames| - 1)
  }

  /**
   A read bracket with an acknowledged address: START, address, n frames of which exactly the last is left
   without acknowledge, STOP; the n bytes on the wire are the n bytes handed to the user.
   */
  lemma ReadBracketWire(slave: Slave, s: State, a: bv8, n: nat) returns (frames: seq<Event>, bytes: seq<bv8>)
    requires Polite(slave) && WellFormed(ReadBracket(a, n)) && StartAcked(slave, s.events, a)
    ensures |frames| == n && ReadFrames(frames, bytes)
    ensures Run(slave, s, Ops(ReadBracket(a, n))) ==
              State(Init, Run(slave, s, Ops(ReadBracket(a, n))).pending,
                    s.events + [Start, ByteFrame(a, true)] + frames + [Stop], s.out + bytes)
  {
    var started := AfterStart(slave, s.events, a);
    var rx := AfterRx(slave, started, n, false);
    ReadBracketRun(slave, s, ReadBracket(a, n));
    PoliteStart(slave, s.events, a);
    PoliteRx(slave, started, n);
    frames, bytes := rx[|started|..], RxBytes(slave, started, n, false);
    assert rx == started + frames;
    forall i | 0 <= i < n ensures ReadFrame(frames[i], bytes[i], i == n - 1) {
      assert frames[i] == rx[|started| + i];
    }
  }

  // ----- the obligations of the bus interface

  predicate BusIdle(events: seq<Event>) {
    events == [] || events[|events| - 1] == Stop
  }

  lemma QuietWhenNotSending(slave: Slave, events: seq<Event>)
    requires Polite(slave) && PhaseOf(events) != Sending
    ensures slave(events, [])
  {
    assert PoliteAfter(slave, events);
  }

  lemma ClearAllowed(slave: Slave, events: seq<Event>)
    requires Polite(slave) && (BusIdle(events) || PhaseOf(events) != Sending)
    ensures ClearOk(slave, events) && BusIdle(AfterClear(slave, events))
  {
    if !BusIdle(events) {
      QuietWhenNotSending(slave, events);
    }
    PoliteClear(slave, events);
    QuietWhenNotSending(slave, AfterStart(slave, events, START_BYTE));
  }
}
