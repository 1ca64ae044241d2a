/**
 The USB side of the JTAG adapter: one packet, one command. Packets are received two bytes into the buffer
 that replies are built in, so a tap command runs in place.
 */
module JtagDevice {
  import opened Words
  import opened Jtag

  const BUFFER_SIZE := 128
  const BUFFER_OFFSET := 2

  function Cmd(packet: seq<bv8>): (r: bv8)
    requires packet != []
  {
    packet[0] & 0x0f
  }

  function Tail(packet: seq<bv8>): (r: nat)
    requires packet != []
  {
    (packet[0] >> 4) as nat
  }

  predicate IsTaps(packet: seq<bv8>) {
    packet != [] && (Cmd(packet) == 0x00 || Cmd(packet) == 0x04)
  }

  /**
   Packets the host may send: they fit the buffer, a tap command has at least one byte of taps, and the number
   of taps in its last byte is 1, 2, 3 or, written as 0, 4.
   */
  predicate Acceptable(packet: seq<bv8>) {
    |packet| <= BUFFER_SIZE && (IsTaps(packet) ==> |packet| >= 2 && Tail(packet) < 4)
  }

  /** The number of taps of a tap command: four to a byte, fewer in the last one if the tail says so. */
  function TapCount(packet: seq<bv8>): (n: nat)
    requires IsTaps(packet) && |packet| >= 2 && Tail(packet) < 4
    ensures 4 * (|packet| - 2) < n <= 4 * (|packet| - 1)
    ensures n == 4 * (|packet| - 2) + if Tail(packet) == 0 then 4 else Tail(packet)
  {
    var size := 4 * (|packet| - 1);
    if Tail(packet) != 0 then size - (4 - Tail(packet)) else size
  }

  /** The taps a packet asks for. */
  function PacketTaps(packet: seq<bv8>): (taps: seq<Tap>)
    requires Acceptable(packet)
  {
    if IsTaps(packet) then Taps(packet[1..], TapCount(packet)) else []
  }

  /** Samples packed into bytes, zeros behind the last. */
  function PackAll(bits: seq<bool>): (r: seq<bv8>) {
    seq(InBytes(|bits|), k requires 0 <= k < InBytes(|bits|) => InByte(bits, k))
  }

  /** What the device answers to a packet, if it has clocked `before` so far. */
  function Reply(target: Target, before: seq<Tap>, packet: seq<bv8>): (r: seq<bv8>)
    requires packet != [] && Acceptable(packet)
  {
    if IsTaps(packet) then PackAll(Samples(target, before, PacketTaps(packet), Cmd(packet) == 0x04))
    else if Cmd(packet) == 0x03 then [Pack(Sampled(true, target(before)))]
    else if Cmd(packet) <= 0x06 then [0]
    else []
  }

  /** The reset lines after a packet whose first argument is `arg`: TRST is bit 2, SRST bit 3. */
  function ResetsAfter(resets: bv8, cmd: bv8, arg: bv8): (r: bv8) {
    if cmd == 0x02 then (resets & 0x04) | ((arg & 0x01) << 3)
    else if cmd == 0x01 then (resets & 0x08) | ((arg & 0x01) << 2)
    else if cmd == 0x06 then ((arg & 0x01) << 3) | (if arg & 0x02 != 0 then 0x04 else 0x00)
    else resets
  }

  /**
   A tap command, bit by bit: the high nibble of the first byte is the number of taps in the last one, and each
   byte behind the first one holds four taps, TDI below TMS, from its low bits up.
   */
  lemma TapPacket(packet: seq<bv8>, j: nat)
    requires packet != [] && (packet[0] & 0x0f == 0 || packet[0] & 0x0f == 4) && Acceptable(packet)
    requires j < |PacketTaps(packet)|
    ensures |PacketTaps(packet)| ==
            if packet[0] >> 4 == 0 then 4 * (|packet| - 1) else 4 * (|packet| - 2) + (packet[0] >> 4) as nat
    ensures PacketTaps(packet)[j].tdi <==> BitAt(packet[1 + j / 4], 2 * (j % 4))
    ensures PacketTaps(packet)[j].tms <==> BitAt(packet[1 + j / 4], 2 * (j % 4) + 1)
  {
    assert IsTaps(packet);
    assert PacketTaps(packet)[j] == TapOf(packet[1 + j / 4], j % 4);
  }

  /** Its answer, bit by bit: TDO of eight taps to a byte, or TDO below EMU of four, zeros behind the last tap. */
  lemma TdoReply(target: Target, before: seq<Tap>, packet: seq<bv8>, j: nat)
    requires packet != [] && packet[0] & 0x0f == 0 && Acceptable(packet)
    ensures |Reply(target, before, packet)| == (|PacketTaps(packet)| + 7) / 8
    ensures j < 8 * |Reply(target, before, packet)| ==>
              (BitAt(Reply(target, before, packet)[j / 8], j % 8) <==>
                j < |PacketTaps(packet)| && target(before + PacketTaps(packet)[..j + 1]).tdo)
  {
    var bits, reply, taps :=
      Samples(target, before, PacketTaps(packet), false), Reply(target, before, packet), PacketTaps(packet);
    if j < 8 * |reply| {
      assert reply[j / 8] == InByte(bits, j / 8);
      InByteBit(bits, j);
      if j < |taps| {
        SampleAt(target, before, taps, j, false);
      }
    }
  }

  lemma PairReply(target: Target, before: seq<Tap>, packet: seq<bv8>, j: nat)
    requires packet != [] && packet[0] & 0x0f == 4 && Acceptable(packet)
    ensures |Reply(target, before, packet)| == (|PacketTaps(packet)| + 3) / 4
    ensures j < 4 * |Reply(target, before, packet)| ==>
              && (BitAt(Reply(target, before, packet)[j / 4], 2 * (j % 4)) <==>
                  j < |PacketTaps(packet)| && target(before + PacketTaps(packet)[..j + 1]).tdo)
              && (BitAt(Reply(target, before, packet)[j / 4], 2 * (j % 4) + 1) <==>
                  j < |PacketTaps(packet)| && target(before + PacketTaps(packet)[..j + 1]).emu)
  {
    var bits, reply, taps :=
      Samples(target, before, PacketTaps(packet), true), Reply(target, before, packet), PacketTaps(packet);
    if j < 4 * |reply| {
      var b := reply[j / 4];
      assert b == InByte(bits, j / 4) && At(bits, 2 * j) == (j < |taps| && bits[2 * j]);
      PairBits(bits, j);
      if j < |taps| {
        SampleAt(target, before, taps, j, true);
      }
    }
  }

  /** The answers to all other commands. */
  lemma SetReply(target: Target, before: seq<Tap>, packet: seq<bv8>)
    requires packet != [] && packet[0] & 0x0f != 0 && packet[0] & 0x0f != 4 && |packet| <= BUFFER_SIZE
    ensures Acceptable(packet) && PacketTaps(packet) == []
    ensures packet[0] & 0x0f == 3 ==>
              Reply(target, before, packet) ==
              [(if target(before).tdo then 1 else 0) + (if target(before).emu then 2 else 0)]
    ensures packet[0] & 0x0f == 1 || packet[0] & 0x0f == 2 || packet[0] & 0x0f == 5 || packet[0] & 0x0f == 6 ==>
              Reply(target, before, packet) == [0]
    ensures packet[0] & 0x0f > 6 ==> Reply(target, before, packet) == []
  {
  }

  /** The first argument of a command: what an earlier packet left there, if this one has none. */
  function Arg(packet: seq<bv8>, stale: bv8): (r: bv8) {
    if |packet| > 1 then packet[1] else stale
  }

  /** The taps end before the end of what was received, and the samples end before they could reach unread taps. */
  lemma PacketFits(packet: seq<bv8>, emu: bool)
    requires IsTaps(packet) && Acceptable(packet)
    ensures OutBytes(TapCount(packet)) == |packet| - 1 && 1 <= TapCount(packet) <= 1020
    ensures InBytes(Count(emu, TapCount(packet))) <= |packet| - 1
  {
  }

  function DelayAfter(delay: nat, cmd: bv8, arg: bv8): (r: nat) {
    if cmd == 0x05 then 256 * arg as nat else delay
  }

  /**
   The port's bits 3 (SRST) and 2 (TRST) after a packet: commands 1 and 2 each set one of them to bit 0 of the
   argument, 6 sets SRST to bit 0 and TRST to bit 1.
   */
  predicate LinesSet(packet: seq<bv8>, stale: bv8, was: bv8, now: bv8)
    requires packet != []
  {
    var arg := if |packet| > 1 then packet[1] else stale;
    match packet[0] & 0x0f
    case 1 => (now & 0x04 != 0 <==> arg & 0x01 != 0) && (now & 0x08 != 0 <==> was & 0x08 != 0)
    case 2 => (now & 0x04 != 0 <==> was & 0x04 != 0) && (now & 0x08 != 0 <==> arg & 0x01 != 0)
    case 6 => (now & 0x04 != 0 <==> arg & 0x02 != 0) && (now & 0x08 != 0 <==> arg & 0x01 != 0)
    case _ => (now & 0x04 != 0 <==> was & 0x04 != 0) && (now & 0x08 != 0 <==> was & 0x08 != 0)
  }

  /** The delay after a packet: command 5 makes it 256 times the argument. */
  predicate DelaySet(packet: seq<bv8>, stale: bv8, was: nat, now: nat)
    requires packet != []
  {
    now == if packet[0] & 0x0f != 5 then was else if |packet| > 1 then 256 * packet[1] as nat else 256 * stale as nat
  }

  lemma ResetBits(was: bv8, now: bv8, cmd: bv8, arg: bv8)
    requires now & 0x0c == ResetsAfter(was & 0x0c, cmd, arg)
    ensures cmd == 1 ==> (now & 0x04 != 0 <==> arg & 0x01 != 0) && (now & 0x08 != 0 <==> was & 0x08 != 0)
    ensures cmd == 2 ==> (now & 0x04 != 0 <==> was & 0x04 != 0) && (now & 0x08 != 0 <==> arg & 0x01 != 0)
    ensures cmd == 6 ==> (now & 0x04 != 0 <==> arg & 0x02 != 0) && (now & 0x08 != 0 <==> arg & 0x01 != 0)
    ensures cmd != 1 && cmd != 2 && cmd != 6 ==>
              (now & 0x04 != 0 <==> was & 0x04 != 0) && (now & 0x08 != 0 <==> was & 0x08 != 0)
  {
    assert now & 0x08 == (now & 0x0c) & 0x08 && now & 0x04 == (now & 0x0c) & 0x04;
  }

  lemma PacketSets(packet: seq<bv8>, stale: bv8, was: bv8, now: bv8, delay: nat)
    requires packet != [] && now & 0x0c == ResetsAfter(was & 0x0c, Cmd(packet), Arg(packet, stale))
    ensures LinesSet(packet, stale, was, now)
    ensures DelaySet(packet, stale, delay, DelayAfter(delay, Cmd(packet), Arg(packet, stale)))
  {
    ResetBits(was, now, Cmd(packet), Arg(packet, stale));
  }

  lemma Payload(buf: seq<bv8>, packet: seq<bv8>)
    requires 1 <= |packet| <= |buf| - BUFFER_OFFSET && buf[BUFFER_OFFSET..BUFFER_OFFSET + |packet|] == packet
    ensures buf[BUFFER_OFFSET + 1..][..|packet| - 1] == packet[1..]
  {
    assert buf[BUFFER_OFFSET..BUFFER_OFFSET + |packet|][1..] == buf[BUFFER_OFFSET + 1..][..|packet| - 1];
  }

  lemma SameTaps(out: seq<bv8>, part: seq<bv8>, n: nat)
    requires |part| <= |out| && out[..|part|] == part && n <= 4 * |part|
    ensures Taps(out, n) == Taps(part, n)
  {
    forall j | 0 <= j < n ensures Taps(out, n)[j] == Taps(part, n)[j] {
      assert out[j / 4] == out[..|part|][j / 4];
    }
  }

  lemma PackedAll(buf: seq<bv8>, bits: seq<bool>)
    requires InBytes(|bits|) <= |buf| && Packed(buf, 0, bits, InBytes(|bits|))
    ensures buf[..InBytes(|bits|)] == PackAll(bits)
  {
    forall k | 0 <= k < InBytes(|bits|) ensures buf[k] == PackAll(bits)[k] {
      assert buf[0 + k] == InByte(bits, k);
    }
  }

  class Device {
    const port: Port
    const usbBuffer: array<bv8>
    var dataToHostSize: nat
    var delay: nat

    ghost predicate Valid()
      reads this, port
    {
      port.Valid() && usbBuffer.Length == BUFFER_SIZE + BUFFER_OFFSET && dataToHostSize <= BUFFER_SIZE
    }

    /** What waits to be sent to the host. */
    function Pending(): (r: seq<bv8>)
      reads this, usbBuffer
      requires dataToHostSize <= usbBuffer.Length
    {
      usbBuffer[..dataToHostSize]
    }

    constructor (target: Target)
      ensures Valid() && fresh(port) && fresh(usbBuffer) && port.target == target && port.taps == []
      ensures Pending() == [] && delay == 0
    {
      port := new Port(target);
      usbBuffer := new bv8[BUFFER_SIZE + BUFFER_OFFSET](_ => 0);
      dataToHostSize, delay := 0, 0;
    }

    /** Puts a packet where packets are received. */
    method Receive(packet: seq<bv8>)
      requires Valid() && |packet| <= BUFFER_SIZE
      modifies usbBuffer
      ensures usbBuffer[BUFFER_OFFSET..BUFFER_OFFSET + |packet|] == packet
      ensures packet != [] ==> usbBuffer[BUFFER_OFFSET + 1] == Arg(packet, old(usbBuffer[BUFFER_OFFSET + 1]))
    {
      var i := 0;
      while i < |packet|
        invariant 0 <= i <= |packet|
        invariant forall k :: 0 <= k < i ==> usbBuffer[BUFFER_OFFSET + k] == packet[k]
        invariant forall k :: BUFFER_OFFSET + |packet| <= k < usbBuffer.Length ==> usbBuffer[k] == old(usbBuffer[k])
      {
        usbBuffer[BUFFER_OFFSET + i] := packet[i];
        i := i + 1;
      }
    }

    method TapCommand(packet: seq<bv8>)
      requires Valid() && IsTaps(packet) && Acceptable(packet)
      requires usbBuffer[BUFFER_OFFSET..BUFFER_OFFSET + |packet|] == packet
      modifies this, port, usbBuffer
      ensures Valid() && delay == old(delay) && port.Resets() == old(port.Resets())
      ensures port.taps == old(port.taps) + PacketTaps(packet)
      ensures Pending() == Reply(port.target, old(port.taps), packet)
    {
      var emu := Cmd(packet) == 0x04;
      var size := 4 * (|packet| - 1);
      if packet[0] & 0xf0 != 0 {
        size := size - (4 - ((packet[0] & 0xf0) >> 4) as nat);
      }
      assert size == TapCount(packet);
      PacketFits(packet, emu);
      ghost var out := usbBuffer[BUFFER_OFFSET + 1..];
      assert out == usbBuffer[..][BUFFER_OFFSET + 1..];
      Payload(usbBuffer[..], packet);
      SameTaps(out, packet[1..], size);
      var len := TapOutput(port, emu, usbBuffer, BUFFER_OFFSET + 1, size, usbBuffer, 0);
      dataToHostSize := len;
      PackedAll(usbBuffer[..], Samples(port.target, old(port.taps), PacketTaps(packet), emu));
    }

    method SetCommand(cmd: bv8)
      requires Valid() && cmd != 0x00 && cmd != 0x04 && dataToHostSize == 0
      modifies this, port, usbBuffer
      ensures Valid() && port.taps == old(port.taps)
      ensures port.Resets() == ResetsAfter(old(port.Resets()), cmd, old(usbBuffer[BUFFER_OFFSET + 1]))
      ensures delay == DelayAfter(old(delay), cmd, old(usbBuffer[BUFFER_OFFSET + 1]))
      ensures Pending() ==
                if cmd == 0x03 then [Pack(Sampled(true, port.target(port.taps)))] else if cmd <= 0x06 then [0] else []
    {
      var arg := usbBuffer[BUFFER_OFFSET + 1];
      if cmd == 0x03 {
        usbBuffer[0] := port.ReadInput();
      } else if cmd == 0x02 {
        port.SetSrst(arg & 0x01);
        usbBuffer[0] := 0;
      } else if cmd == 0x01 {
        port.SetTrst(arg & 0x01);
        usbBuffer[0] := 0;
      } else if cmd == 0x05 {
        delay := arg as nat * 256;
        usbBuffer[0] := 0;
      } else if cmd == 0x06 {
        port.SetTrstSrst(if arg & 0x02 != 0 then 1 else 0, arg & 0x01);
        usbBuffer[0] := 0;
      } else {
        return;
      }
      dataToHostSize := 1;
    }

    /** The last command received, if any, has been answered and the answer waits to be sent. */
    method Handle(packet: seq<bv8>)
      requires Valid() && packet != [] && Acceptable(packet)
      modifies this, port, usbBuffer
      ensures Valid() && port.taps == old(port.taps) + PacketTaps(packet)
      ensures Pending() == Reply(port.target, old(port.taps), packet)
      ensures port.Resets() ==
                ResetsAfter(old(port.Resets()), Cmd(packet), Arg(packet, old(usbBuffer[BUFFER_OFFSET + 1])))
      ensures delay == DelayAfter(old(delay), Cmd(packet), Arg(packet, old(usbBuffer[BUFFER_OFFSET + 1])))
    {
      Receive(packet);
      dataToHostSize := 0;
      if IsTaps(packet) {
        TapCommand(packet);
      } else {
        assert PacketTaps(packet) == [] && port.taps + [] == port.taps;
        SetCommand(Cmd(packet));
      }
    }

    /**
     One round of the main loop: a waiting reply goes out if the host takes it, then a packet is handled if one
     has come. `sent` is what the host has taken.
     */
    method Tick(connected: bool, hostTakes: bool, packet: Option<seq<bv8>>) returns (sent: seq<bv8>)
      requires Valid() && (packet.Some? ==> Acceptable(packet.value))
      modifies this, port, usbBuffer
      ensures Valid()
      ensures sent == if connected && hostTakes then old(Pending()) else []
      ensures connected && packet.Some? && packet.value != [] ==>
                && port.taps == old(port.taps) + PacketTaps(packet.value)
                && Pending() == Reply(port.target, old(port.taps), packet.value)
                && (var cmd, arg := Cmd(packet.value), Arg(packet.value, old(usbBuffer[BUFFER_OFFSET + 1]));
                    port.Resets() == ResetsAfter(old(port.Resets()), cmd, arg) &&
                    delay == DelayAfter(old(delay), cmd, arg))
      ensures connected && packet.Some? && packet.value != [] ==>
                && LinesSet(packet.value, old(usbBuffer[BUFFER_OFFSET + 1]), old(port.out), port.out)
                && DelaySet(packet.value, old(usbBuffer[BUFFER_OFFSET + 1]), old(delay), delay)
      ensures !(connected && packet.Some? && packet.value != []) ==>
                && port.taps == old(port.taps) && port.Resets() == old(port.Resets()) && delay == old(delay)
                && Pending() == if connected && hostTakes then [] else old(Pending())
    {
      sent := [];
      if connected {
        if dataToHostSize != 0 && hostTakes {
          sent := usbBuffer[..dataToHostSize];
          dataToHostSize := 0;
        }
        if packet.Some? && packet.value != [] {
          Handle(packet.value);
          PacketSets(packet.value, old(usbBuffer[BUFFER_OFFSET + 1]), old(port.out), port.out, old(delay));
        }
      }
    }
  }
}
