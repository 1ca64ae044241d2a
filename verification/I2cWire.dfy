/**
 What an observer of the two I2C lines sees: sections 3.1.3 to 3.1.6 of UM10204, the I2C-bus specification.

 A START is SDA falling while SCL is high, a STOP is SDA rising while SCL is high, and SDA is sampled at
 every rising edge of SCL. Nine samples make a frame: eight bits, most significant first, and the
 acknowledge bit. A START or STOP drops an unfinished frame, because the master raises SCL once before
 making either.
 */
module I2cWire {

  /** The data bits of a frame. */
  const BITS := 8

  /** The levels of the two lines. */
  datatype Level = Level(sda: bool, scl: bool)

  datatype Event = Start | Stop | Frame(bits: seq<bool>)

  datatype Decoder = Decoder(last: Level, bits: seq<bool>, events: seq<Event>)

  function Sampled(d: Decoder, l: Level): (r: Decoder) {
    var bits := d.bits + [l.sda];
    if |bits| == 9 then Decoder(l, [], d.events + [Frame(bits)]) else Decoder(l, bits, d.events)
  }

  function Observe(d: Decoder, l: Level): (r: Decoder) {
    if d.last.scl && l.scl && d.last.sda != l.sda then
      Decoder(l, [], d.events + [if l.sda then Stop else Start])
    else if !d.last.scl && l.scl then
      Sampled(d, l)
    else
      d.(last := l)
  }

  /** The decoding of a whole waveform, from an idle bus on. */
  function Decode(wave: seq<Level>): (r: Decoder) {
    if wave == [] then Decoder(Level(true, true), [], [])
    else Observe(Decode(wave[..|wave| - 1]), wave[|wave| - 1])
  }

  lemma DecodeNext(wave: seq<Level>, l: Level)
    ensures Decode(wave + [l]) == Observe(Decode(wave), l)
  {
    assert (wave + [l])[..|wave|] == wave;
  }

  /** The number of changes of SDA while SCL is high. */
  function Conditions(wave: seq<Level>): (r: nat) {
    if wave == [] then 0
    else
      var last, l := Decode(wave[..|wave| - 1]).last, wave[|wave| - 1];
      Conditions(wave[..|wave| - 1]) + if last.scl && l.scl && last.sda != l.sda then 1 else 0
  }

  function Marks(events: seq<Event>): (r: nat) {
    if events == [] then 0
    else Marks(events[..|events| - 1]) + if events[|events| - 1].Frame? then 0 else 1
  }

  /** SDA changes while SCL is high exactly as often as the decoding has a START or a STOP. */
  lemma {:induction false} StableData(wave: seq<Level>)
    ensures Conditions(wave) == Marks(Decode(wave).events)
  {
    if wave != [] {
      var n := |wave| - 1;
      StableData(wave[..n]);
      var d, d' := Decode(wave[..n]), Decode(wave);
      if d'.events != d.events {
        assert d'.events[..|d'.events| - 1] == d.events;
      }
    }
  }

  /**
   The other side of the bus: from the events and the bits of the current frame it has seen, whether it
   releases SDA in the coming clock period. It changes SDA only while SCL is low.
   */
  type Slave = (seq<Event>, seq<bool>) -> bool

  /** The levels of SDA in the coming clock periods when the master drives `mine`: a wired AND. */
  function Drive(slave: Slave, events: seq<Event>, got: seq<bool>, mine: seq<bool>): (r: seq<bool>)
    ensures |r| == |got| + |mine| && r[..|got|] == got
    decreases |mine|
  {
    if mine == [] then got else Drive(slave, events, got + [mine[0] && slave(events, got)], mine[1..])
  }

  /** The bits of a byte in the order they are sent. */
  function Bits(b: bv8): (r: seq<bool>)
    ensures |r| == BITS
  {
    [b & 0x80 != 0, b & 0x40 != 0, b & 0x20 != 0, b & 0x10 != 0,
     b & 0x08 != 0, b & 0x04 != 0, b & 0x02 != 0, b & 0x01 != 0]
  }

  /** One frame in which the master drives the eight bits of `b` and releases the acknowledge bit. */
  function Sent(slave: Slave, events: seq<Event>, b: bv8): (r: seq<bool>)
    ensures |r| == 9
  {
    Drive(slave, events, [], Bits(b) + [true])
  }

  function Released(n: nat): (r: seq<bool>)
    ensures |r| == n && forall i :: 0 <= i < n ==> r[i]
  {
    seq(n, _ => true)
  }

  /** One frame in which the master releases SDA for eight bits and drives the acknowledge bit. */
  function Taken(slave: Slave, events: seq<Event>, ack: bool): (r: seq<bool>)
    ensures |r| == 9
  {
    Drive(slave, events, [], Released(BITS) + [!ack])
  }

  predicate Acked(frame: seq<bool>)
    requires |frame| == 9
  {
    !frame[8]
  }

  function Bit(x: bool): (b: bv8) {
    if x then 1 else 0
  }

  function ShiftIn(bits: seq<bool>): (b: bv8) {
    if bits == [] then 0 else (ShiftIn(bits[..|bits| - 1]) << 1) | Bit(bits[|bits| - 1])
  }

  function Payload(frame: seq<bool>): (b: bv8)
    requires |frame| == 9
  {
    ShiftIn(frame[..8])
  }

  // ----- bytes as bits, most significant first

  /** The bits that come out when the top bit is looked at and the byte shifted, n times over. */
  function ShiftOut(b: bv8, n: nat): (r: seq<bool>)
    ensures |r| == n
    decreases n
  {
    if n == 0 then [] else [b & 0x80 != 0] + ShiftOut(b << 1, n - 1)
  }

  lemma ShiftInNext(bits: seq<bool>, x: bool)
    ensures ShiftIn(bits + [x]) == (ShiftIn(bits) << 1) | Bit(x)
  {
    assert (bits + [x])[..|bits|] == bits;
  }

  /** `b` shifted left one place at a time. */
  function Shifted(b: bv8, i: nat): (r: bv8) {
    if i == 0 then b else Shifted(b, i - 1) << 1
  }

  lemma {:induction false} ShiftedFirst(b: bv8, i: nat)
    requires 0 < i
    ensures Shifted(b, i) == Shifted(b << 1, i - 1)
  {
    if i > 1 {
      ShiftedFirst(b, i - 1);
    }
  }

  lemma {:induction false} ShiftOutAt(b: bv8, n: nat, i: nat)
    requires i < n
    ensures ShiftOut(b, n)[i] <==> Shifted(b, i) & 0x80 != 0
    decreases n
  {
    if i > 0 {
      ShiftOutAt(b << 1, n - 1, i - 1);
      ShiftedFirst(b, i);
    }
  }

  lemma ShiftedValues(b: bv8)
    ensures Shifted(b, 0) == b && Shifted(b, 1) == b << 1 && Shifted(b, 2) == b << 2 && Shifted(b, 3) == b << 3
    ensures Shifted(b, 4) == b << 4 && Shifted(b, 5) == b << 5 && Shifted(b, 6) == b << 6 && Shifted(b, 7) == b << 7
  {
    assert Shifted(b, 1) == Shifted(b, 0) << 1;
    assert Shifted(b, 2) == Shifted(b, 1) << 1;
    assert Shifted(b, 3) == Shifted(b, 2) << 1;
    assert Shifted(b, 4) == Shifted(b, 3) << 1;
    assert Shifted(b, 5) == Shifted(b, 4) << 1;
    assert Shifted(b, 6) == Shifted(b, 5) << 1;
    assert Shifted(b, 7) == Shifted(b, 6) << 1;
  }

  /** Shifting a byte out sends its bits in order. */
  lemma ShiftOutBits(b: bv8)
    ensures ShiftOut(b, BITS) == Bits(b)
  {
    ShiftedValues(b);
    ShiftOutAt(b, 8, 0);
    ShiftOutAt(b, 8, 1);
    ShiftOutAt(b, 8, 2);
    ShiftOutAt(b, 8, 3);
    ShiftOutAt(b, 8, 4);
    ShiftOutAt(b, 8, 5);
    ShiftOutAt(b, 8, 6);
    ShiftOutAt(b, 8, 7);
  }

  lemma ShiftInPrefix(s: seq<bool>, k: nat)
    requires k < |s|
    ensures ShiftIn(s[..k + 1]) == (ShiftIn(s[..k]) << 1) | Bit(s[k])
  {
    assert s[..k + 1] == s[..k] + [s[k]];
    ShiftInNext(s[..k], s[k]);
  }

  lemma ShiftInEight(s: seq<bool>)
    requires |s| == 8
    ensures ShiftIn(s) ==
              (Bit(s[0]) << 7) | (Bit(s[1]) << 6) | (Bit(s[2]) << 5) | (Bit(s[3]) << 4) |
              (Bit(s[4]) << 3) | (Bit(s[5]) << 2) | (Bit(s[6]) << 1) | Bit(s[7])
  {
    ShiftInPrefix(s, 0);
    ShiftInPrefix(s, 1);
    ShiftInPrefix(s, 2);
    ShiftInPrefix(s, 3);
    ShiftInPrefix(s, 4);
    ShiftInPrefix(s, 5);
    ShiftInPrefix(s, 6);
    ShiftInPrefix(s, 7);
    assert s[..8] == s && s[..0] == [];
  }

  /** Bits taken from the wire give back the byte that was put on it. */
  lemma BitsRoundTrip(b: bv8)
    ensures ShiftIn(Bits(b)) == b
  {
    ShiftInEight(Bits(b));
  }

  // ----- an undisturbed frame

  lemma {:induction false} DriveFree(slave: Slave, events: seq<Event>, got: seq<bool>, mine: seq<bool>, more: seq<bool>)
    requires forall g :: |g| < |got| + |mine| ==> slave(events, g)
    ensures Drive(slave, events, got, mine + more) == Drive(slave, events, got + mine, more)
    decreases |mine|
  {
    if mine == [] {
      assert mine + more == more && got + mine == got;
    } else {
      assert (mine + more)[1..] == mine[1..] + more;
      assert got + [mine[0]] + mine[1..] == got + mine;
      DriveFree(slave, events, got + [mine[0]], mine[1..], more);
    }
  }

  /** If the slave releases SDA for the first eight bits, the frame carries exactly the byte. */
  lemma UndisturbedSend(slave: Slave, events: seq<Event>, b: bv8)
    requires forall got :: |got| < 8 ==> slave(events, got)
    ensures var f := Sent(slave, events, b);
            f == Bits(b) + [slave(events, Bits(b))] && Payload(f) == b
  {
    var bits := Bits(b);
    DriveFree(slave, events, [], bits, [true]);
    assert [] + bits == bits;
    BitsRoundTrip(b);
    assert (bits + [slave(events, bits)])[..8] == bits;
  }

  lemma {:induction false} DriveLast(slave: Slave, events: seq<Event>, got: seq<bool>, mine: seq<bool>, x: bool)
    ensures var before := Drive(slave, events, got, mine);
            Drive(slave, events, got, mine + [x]) == before + [x && slave(events, before)]
    decreases |mine|
  {
    if mine == [] {
      assert mine + [x] == [x];
      assert [x][1..] == [];
    } else {
      assert (mine + [x])[1..] == mine[1..] + [x];
      DriveLast(slave, events, got + [mine[0] && slave(events, got)], mine[1..], x);
    }
  }

  /** If the slave releases SDA for the acknowledge bit, the frame carries the master's acknowledge. */
  lemma UndisturbedTake(slave: Slave, events: seq<Event>, ack: bool)
    requires forall got :: |got| == 8 ==> slave(events, got)
    ensures Acked(Taken(slave, events, ack)) == ack
  {
    DriveLast(slave, events, [], Released(BITS), !ack);
    var eight := Drive(slave, events, [], Released(BITS));
    assert Taken(slave, events, ack) == eight + [!ack && slave(events, eight)];
  }
}
