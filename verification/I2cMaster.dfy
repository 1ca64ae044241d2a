/**
 The software I2C master: two open-drain lines driven by direction bits, clocked bit by bit.
 */
module I2cMaster {
  import opened I2cWire
  import opened I2cLine

  /** The address byte of a START: the R/W bit replaces the address's low bit. */
  function AddressByte(address: bv8, read: bool): (b: bv8) {
    (address & 0xfe) | Bit(read)
  }

  lemma NextBit(slave: Slave, l: Line, d: bv8, n: nat)
    requires |l.bits| < 9
    ensures Clocks(slave, l, ShiftOut(d, n + 1)) == Clocks(slave, Clocked(slave, l, d & 0x80 != 0), ShiftOut(d << 1, n))
  {
    assert ShiftOut(d, n + 1)[1..] == ShiftOut(d << 1, n);
  }

  lemma MoreBytes(slave: Slave, l: Line, n: nat, ack: bool, got: seq<bv8>)
    requires LineOk(l) && l.hold == Held && n > 0
    ensures var next := ByteTaken(slave, l, n > 1 || ack);
            got + ReceivedBytes(slave, l, n, ack) == got + [ByteRead(slave, l)] + ReceivedBytes(slave, next, n - 1, ack)
  {
  }

  lemma MoreOf(slave: Slave, l: Line, rest: seq<bool>, got: seq<bool>)
    requires |l.bits| < 9
    ensures var next := Clocked(slave, l, true);
            && got + Levels(slave, l, [true] + rest) == got + [Quiet(slave, l)] + Levels(slave, next, rest)
            && Clocks(slave, l, [true] + rest) == Clocks(slave, next, rest)
  {
    assert ([true] + rest)[1..] == rest;
  }

  lemma MoreLevels(slave: Slave, l: Line, n: nat, got: seq<bool>)
    requires |l.bits| < 9 && n > 0
    ensures var next := Clocked(slave, l, true);
            && got + Levels(slave, l, Released(n)) == got + [Quiet(slave, l)] + Levels(slave, next, Released(n - 1))
            && Clocks(slave, l, Released(n)) == Clocks(slave, next, Released(n - 1))
  {
    var rest := Released(n - 1);
    assert Released(n) == [true] + rest;
    MoreOf(slave, l, rest, got);
  }

  /** The master, its two lines and what is on the other side of them. */
  class Master {
    const slave: Slave
    /** How many polls the slave holds SCL low for, before a bit that the master reads. */
    const stretch: (seq<Event>, seq<bool>) -> nat
    var sdaLow: bool
    var sclLow: bool
    var holdBus: bool
    var slaveReleases: bool
    var wave: seq<Level>
    var seen: Decoder

    /** What was seen is the decoding of the recorded waveform, which ends in the present levels. */
    ghost predicate Consistent()
      reads this
    {
      seen == Decode(wave) && seen.last == Level(!sdaLow && slaveReleases, !sclLow)
    }

    /** SCL is low and the slave has set SDA for the coming clock period, or the master has released both lines. */
    ghost predicate Valid()
      reads this
    {
      && Consistent() && |seen.bits| < 9
      && (holdBus ==> sclLow && slaveReleases == slave(seen.events, seen.bits))
      && (!holdBus ==> !sdaLow && !sclLow && (slaveReleases ==> seen.bits == []))
    }

    constructor (slave: Slave, stretch: (seq<Event>, seq<bool>) -> nat)
      ensures Valid() && !holdBus && seen.events == []
      ensures this.slave == slave && this.stretch == stretch
    {
      this.slave, this.stretch := slave, stretch;
      sdaLow, sclLow, holdBus, slaveReleases := false, false, false, true;
      wave, seen := [], Decoder(Level(true, true), [], []);
    }

    ghost function Now(): (l: Line)
      reads this
    {
      Line(seen.events, seen.bits, if holdBus then Held else if slaveReleases then AtRest else Stuck)
    }

    method Record(l: Level)
      requires seen == Decode(wave)
      modifies this`wave, this`seen
      ensures seen == Decode(wave) && seen == Observe(old(seen), l)
    {
      DecodeNext(wave, l);
      wave := wave + [l];
      seen := Observe(seen, l);
    }

    method SetSda(high: bool)
      requires Consistent()
      modifies this`sdaLow, this`wave, this`seen
      ensures Consistent() && sdaLow == !high
      ensures seen == Observe(old(seen), Level(high && slaveReleases, !sclLow))
    {
      sdaLow := !high;
      Record(Level(high && slaveReleases, !sclLow));
    }

    method SclHigh()
      requires Consistent()
      modifies this`sclLow, this`wave, this`seen
      ensures Consistent() && !sclLow
      ensures seen == Observe(old(seen), Level(!sdaLow && slaveReleases, true))
    {
      sclLow := false;
      Record(Level(!sdaLow && slaveReleases, true));
    }

    /** If SCL falls, the slave sets SDA for the next clock period. */
    method SclLow()
      requires Consistent()
      modifies this`sclLow, this`slaveReleases, this`wave, this`seen
      ensures Consistent() && sclLow
      ensures seen.events == old(seen).events && seen.bits == old(seen).bits
      ensures slaveReleases == if old(sclLow) then old(slaveReleases) else slave(seen.events, seen.bits)
    {
      var falls := !sclLow;
      sclLow := true;
      Record(Level(!sdaLow && slaveReleases, false));
      if falls {
        slaveReleases := slave(seen.events, seen.bits);
        Record(Level(!sdaLow && slaveReleases, false));
      }
    }

    /** One clock period in which the master drives or releases SDA. */
    method ClockOut(high: bool)
      requires Valid() && holdBus
      modifies this`sdaLow, this`sclLow, this`slaveReleases, this`wave, this`seen
      ensures Valid() && Now() == Clocked(slave, old(Now()), high)
    {
      SetSda(high);
      SclHigh();
      SclLow();
    }

    method WriteByte(data: bv8)
      requires Valid() && holdBus
      modifies this`sdaLow, this`sclLow, this`slaveReleases, this`wave, this`seen
      ensures Valid() && Now() == Clocks(slave, old(Now()), Bits(data))
    {
      var d, i := data, 0;
      ghost var last := Clocks(slave, Now(), ShiftOut(data, BITS));
      ShiftOutBits(data);
      while i < 8
        invariant 0 <= i <= 8 && Valid() && holdBus
        invariant Clocks(slave, Now(), ShiftOut(d, BITS - i)) == last
      {
        NextBit(slave, Now(), d, BITS - (i + 1));
        ClockOut(d & 0x80 != 0);
        d := d << 1;
        i := i + 1;
      }
    }

    /** One clock period in which the master releases SDA, waits for SCL and takes the bit. */
    method ReadBit() returns (bit: bool)
      requires Valid() && holdBus
      modifies this`sdaLow, this`sclLow, this`slaveReleases, this`wave, this`seen
      ensures Valid() && bit == Quiet(slave, old(Now())) && Now() == Clocked(slave, old(Now()), true)
    {
      SetSda(true);
      var polls := stretch(seen.events, seen.bits);
      while polls != 0
        invariant 0 <= polls
        invariant Consistent() && !sdaLow && sclLow && slaveReleases == old(slaveReleases)
        invariant seen.events == old(seen).events && seen.bits == old(seen).bits
      {
        Record(Level(slaveReleases, false));
        polls := polls - 1;
      }
      SclHigh();
      bit := slaveReleases;
      SclLow();
    }

    /** A byte the master sends, and the acknowledge bit of the other side. */
    method SendFrame(b: bv8) returns (acked: bool)
      requires Valid() && holdBus
      modifies this`sdaLow, this`sclLow, this`slaveReleases, this`wave, this`seen
      ensures Valid() && Now() == ByteSent(slave, old(Now()), b) && acked == ByteAcked(slave, old(Now()), b)
    {
      WriteByte(b);
      var bit := ReadBit();
      acked := !bit;
    }

    method MakeStart()
      requires Valid()
      modifies this`sdaLow, this`sclLow, this`holdBus, this`slaveReleases, this`wave, this`seen
      ensures Valid() && holdBus && Now() == StartMade(slave, old(Now()))
    {
      if holdBus {
        SetSda(true);
        SclHigh();
      }
      SetSda(false);
      SclLow();
      holdBus := true;
    }

    /** A START, repeated if the bus is held, and the address byte. */
    method MasterStart(address: bv8, read: bool) returns (acked: bool)
      requires Valid()
      modifies this`sdaLow, this`sclLow, this`holdBus, this`slaveReleases, this`wave, this`seen
      ensures Valid() && holdBus && Now() == Started(slave, old(Now()), AddressByte(address, read))
      ensures acked == StartedAcked(slave, old(Now()), AddressByte(address, read))
    {
      MakeStart();
      acked := SendFrame(AddressByte(address, read));
    }

    /** A STOP; if the slave holds SDA low there is none, although the master takes the bus for released. */
    method MasterStop()
      requires Valid()
      modifies this`sdaLow, this`sclLow, this`holdBus, this`slaveReleases, this`wave, this`seen
      ensures Valid() && !holdBus && Now() == StopMade(slave, old(Now()))
    {
      SclLow();
      SetSda(false);
      SclHigh();
      SetSda(true);
      holdBus := false;
    }

    method BusClear()
      requires Valid()
      modifies this`sdaLow, this`sclLow, this`holdBus, this`slaveReleases, this`wave, this`seen
      ensures Valid() && !holdBus && Now() == Cleared(slave, old(Now()))
    {
      assert AddressByte(0, true) == 0x01;
      var acked := MasterStart(0, true);
      MasterStop();
    }

    method MasterTx(buf: seq<bv8>) returns (acked: bool)
      requires Valid() && holdBus
      modifies this`sdaLow, this`sclLow, this`slaveReleases, this`wave, this`seen
      ensures Valid() && Now() == Transmitted(slave, old(Now()), buf) && acked == AllAcked(slave, old(Now()), buf)
    {
      acked := true;
      var i := 0;
      ghost var all, last := AllAcked(slave, Now(), buf), Transmitted(slave, Now(), buf);
      ghost var rest := buf;
      while i < |buf| && acked
        invariant 0 <= i <= |buf| && rest == buf[i..] && Valid() && holdBus
        invariant acked ==> Transmitted(slave, Now(), rest) == last && AllAcked(slave, Now(), rest) == all
        invariant !acked ==> Now() == last && !all
      {
        acked := SendFrame(buf[i]);
        rest := rest[1..];
        i := i + 1;
      }
    }

    /** Eight bits of the other side, most significant first. */
    method ReadByte() returns (b: bv8)
      requires Valid() && holdBus
      modifies this`sdaLow, this`sclLow, this`slaveReleases, this`wave, this`seen
      ensures Valid() && Now() == Clocks(slave, old(Now()), Released(BITS)) && b == ByteRead(slave, old(Now()))
    {
      ghost var last, all, got := Clocks(slave, Now(), Released(BITS)), Levels(slave, Now(), Released(BITS)), [];
      var i := 0;
      b := 0;
      while i < 8
        invariant 0 <= i <= 8 && Valid() && holdBus && b == ShiftIn(got)
        invariant Clocks(slave, Now(), Released(BITS - i)) == last &&
                  got + Levels(slave, Now(), Released(BITS - i)) == all
      {
        MoreLevels(slave, Now(), BITS - i, got);
        ShiftInNext(got, slaveReleases);
        got := got + [slaveReleases];
        var bit := ReadBit();
        b := (b << 1) | Bit(bit);
        i := i + 1;
      }
      assert got == all;
    }

    /** A byte the master takes, and its acknowledge bit. */
    method TakeFrame(ack: bool) returns (b: bv8)
      requires Valid() && holdBus
      modifies this`sdaLow, this`sclLow, this`slaveReleases, this`wave, this`seen
      ensures Valid() && Now() == ByteTaken(slave, old(Now()), ack) && b == ByteRead(slave, old(Now()))
    {
      b := ReadByte();
      ClockOut(!ack);
      SetSda(true);
    }

    method MasterRx(n: nat, ack: bool) returns (buf: seq<bv8>)
      requires Valid() && holdBus
      modifies this`sdaLow, this`sclLow, this`slaveReleases, this`wave, this`seen
      ensures Valid() && Now() == Received(slave, old(Now()), n, ack) && buf == ReceivedBytes(slave, old(Now()), n, ack)
    {
      var left := n;
      ghost var last, bytes := Received(slave, Now(), n, ack), ReceivedBytes(slave, Now(), n, ack);
      buf := [];
      while left > 0
        invariant 0 <= left <= n && Valid() && holdBus
        invariant Received(slave, Now(), left, ack) == last && buf + ReceivedBytes(slave, Now(), left, ack) == bytes
      {
        MoreBytes(slave, Now(), left, ack, buf);
        var b := TakeFrame(left > 1 || ack);
        buf := buf + [b];
        left := left - 1;
      }
    }
  }
}
