/**
 The JTAG tap engine: TDI/TMS pairs go out of a packed buffer, TDO samples (or TDO and EMU pairs) come
 back packed. Output and input may share one array, the input not behind the output.
 */
module Jtag {
  import opened Words

  /** One clock of TCK: the levels of TDI and TMS at its rising edge. */
  datatype Tap = Tap(tdi: bool, tms: bool)

  datatype Pins = Pins(tdo: bool, emu: bool)

  /** The other side: its output pins after the taps it has been clocked with. */
  type Target = seq<Tap> -> Pins

  // ----- what a transfer is

  /** Bits 2t and 2t+1 of a byte: TDI and TMS of its t-th tap. */
  function TapOf(b: bv8, t: nat): (r: Tap)
    requires t < 4
  {
    if t == 0 then Tap(b & 0x01 != 0, b & 0x02 != 0)
    else if t == 1 then Tap(b & 0x04 != 0, b & 0x08 != 0)
    else if t == 2 then Tap(b & 0x10 != 0, b & 0x20 != 0)
    else Tap(b & 0x40 != 0, b & 0x80 != 0)
  }

  /** Four taps to a byte, from its low bits up. */
  function Taps(out: seq<bv8>, n: nat): (r: seq<Tap>)
    requires n <= 4 * |out|
    ensures |r| == n
  {
    seq(n, j requires 0 <= j < n => TapOf(out[j / 4], j % 4))
  }

  /** The number of bits k taps give. */
  function Count(emu: bool, k: nat): (n: nat) {
    if emu then 2 * k else k
  }

  /** What is sampled after one tap. */
  function Sampled(emu: bool, p: Pins): (bits: seq<bool>)
    ensures |bits| == Count(emu, 1)
  {
    if emu then [p.tdo, p.emu] else [p.tdo]
  }

  /** The samples of a run of taps that follows the taps `before`. */
  function Samples(target: Target, before: seq<Tap>, taps: seq<Tap>, emu: bool): (bits: seq<bool>)
    ensures |bits| == Count(emu, |taps|)
    decreases |taps|
  {
    if taps == [] then []
    else Samples(target, before, taps[..|taps| - 1], emu) + Sampled(emu, target(before + taps))
  }

  lemma SamplesNext(target: Target, before: seq<Tap>, taps: seq<Tap>, t: Tap, emu: bool)
    ensures Samples(target, before, taps + [t], emu)
         == Samples(target, before, taps, emu) + Sampled(emu, target(before + (taps + [t])))
  {
    assert (taps + [t])[..|taps|] == taps;
  }

  function Flag(x: bool, mask: bv8): (b: bv8) {
    if x then mask else 0
  }

  function At(bits: seq<bool>, i: nat): (x: bool) {
    i < |bits| && bits[i]
  }

  /** Up to eight bits in a byte, the first in the lowest place and zeros above the last. */
  function Pack(bits: seq<bool>): (b: bv8) {
    Flag(At(bits, 0), 0x01) | Flag(At(bits, 1), 0x02) | Flag(At(bits, 2), 0x04) | Flag(At(bits, 3), 0x08) |
    Flag(At(bits, 4), 0x10) | Flag(At(bits, 5), 0x20) | Flag(At(bits, 6), 0x40) | Flag(At(bits, 7), 0x80)
  }

  function InBytes(nbits: nat): (n: nat) {
    (nbits + 7) / 8
  }

  /** Byte k of the packed samples. */
  function InByte(bits: seq<bool>, k: nat): (b: bv8)
    requires 8 * k <= |bits|
  {
    Pack(if 8 * k + 8 <= |bits| then bits[8 * k..8 * k + 8] else bits[8 * k..])
  }

  /** The samples of tap j: what the target shows after the taps up to and including the j-th. */
  lemma {:induction false} SampleAt(target: Target, before: seq<Tap>, taps: seq<Tap>, j: nat, emu: bool)
    requires j < |taps|
    ensures var bits, p := Samples(target, before, taps, emu), target(before + taps[..j + 1]);
            if emu then bits[2 * j] == p.tdo && bits[2 * j + 1] == p.emu else bits[j] == p.tdo
    decreases |taps|
  {
    var n := |taps| - 1;
    if j < n {
      SampleAt(target, before, taps[..n], j, emu);
      assert taps[..n][..j + 1] == taps[..j + 1];
    } else {
      assert taps[..j + 1] == taps;
    }
  }

  /** Bit i of a byte. */
  function BitAt(b: bv8, i: nat): (x: bool)
    requires i < 8
  {
    if i == 0 then b & 0x01 != 0 else if i == 1 then b & 0x02 != 0 else if i == 2 then b & 0x04 != 0
    else if i == 3 then b & 0x08 != 0 else if i == 4 then b & 0x10 != 0 else if i == 5 then b & 0x20 != 0
    else if i == 6 then b & 0x40 != 0 else b & 0x80 != 0
  }

  lemma PackBit(bits: seq<bool>, i: nat)
    requires i < 8
    ensures BitAt(Pack(bits), i) == At(bits, i)
  {
  }

  /** Sample i lies in bit i mod 8 of byte i / 8, and what lies behind the last one is zero. */
  lemma InByteBit(bits: seq<bool>, i: nat)
    requires i < 8 * InBytes(|bits|)
    ensures BitAt(InByte(bits, i / 8), i % 8) == At(bits, i)
  {
    var k := i / 8;
    PackBit(if 8 * k + 8 <= |bits| then bits[8 * k..8 * k + 8] else bits[8 * k..], i % 8);
  }

  lemma BitIs(b: bv8, i: nat)
    requires i < 8
    ensures BitAt(b, i) <==> (b >> i) & 0x01 != 0
  {
    if i < 4 {
      if i < 2 { if i == 0 {} else {} } else { if i == 2 {} else {} }
    } else {
      if i < 6 { if i == 4 {} else {} } else { if i == 6 {} else {} }
    }
  }

  /** Tap j of the output: TDI in bit 2(j mod 4) of byte j / 4, and TMS in the bit above it. */
  lemma TapLies(out: seq<bv8>, n: nat, j: nat)
    requires j < n <= 4 * |out|
    ensures Taps(out, n)[j].tdi <==> (out[j / 4] >> (2 * (j % 4))) & 0x01 != 0
    ensures Taps(out, n)[j].tms <==> (out[j / 4] >> (2 * (j % 4) + 1)) & 0x01 != 0
  {
    var b, t := out[j / 4], j % 4;
    BitIs(b, 2 * t);
    BitIs(b, 2 * t + 1);
    assert TapOf(b, t).tdi == BitAt(b, 2 * t) && TapOf(b, t).tms == BitAt(b, 2 * t + 1);
  }

  /** TDO of tap j comes back in bit j mod 8 of byte j / 8. */
  lemma TdoLands(target: Target, before: seq<Tap>, taps: seq<Tap>, j: nat)
    requires j < |taps|
    ensures BitAt(InByte(Samples(target, before, taps, false), j / 8), j % 8) == target(before + taps[..j + 1]).tdo
  {
    SampleAt(target, before, taps, j, false);
    InByteBit(Samples(target, before, taps, false), j);
  }

  lemma PairPlace(j: nat)
    ensures (2 * j) / 8 == j / 4 && (2 * j) % 8 == 2 * (j % 4)
    ensures (2 * j + 1) / 8 == j / 4 && (2 * j + 1) % 8 == 2 * (j % 4) + 1
  {
  }

  lemma PairBits(bits: seq<bool>, j: nat)
    requires 2 * j + 1 < 8 * InBytes(|bits|)
    ensures BitAt(InByte(bits, j / 4), 2 * (j % 4)) == At(bits, 2 * j)
    ensures BitAt(InByte(bits, j / 4), 2 * (j % 4) + 1) == At(bits, 2 * j + 1)
  {
    InByteBit(bits, 2 * j);
    InByteBit(bits, 2 * j + 1);
    PairPlace(j);
  }

  /** TDO and EMU of tap j come back in bits 2(j mod 4) and 2(j mod 4) + 1 of byte j / 4. */
  lemma {:induction false} PairLands(target: Target, before: seq<Tap>, taps: seq<Tap>, j: nat)
    requires j < |taps|
    ensures var b, p := InByte(Samples(target, before, taps, true), j / 4), target(before + taps[..j + 1]);
            BitAt(b, 2 * (j % 4)) == p.tdo && BitAt(b, 2 * (j % 4) + 1) == p.emu
  {
    SampleAt(target, before, taps, j, true);
    PairBits(Samples(target, before, taps, true), j);
  }

  // ----- the shift register of the loops

  function ShiftOne(b: bv8, x: bool): (r: bv8) {
    (b >> 1) | Flag(x, 0x80)
  }

  function Shifted(bits: seq<bool>): (r: bv8) {
    if bits == [] then 0 else ShiftOne(Shifted(bits[..|bits| - 1]), bits[|bits| - 1])
  }

  lemma ShiftedNext(bits: seq<bool>, x: bool)
    ensures Shifted(bits + [x]) == ShiftOne(Shifted(bits), x)
  {
    assert (bits + [x])[..|bits|] == bits;
  }

  lemma ShiftedPrefix(bits: seq<bool>, k: nat)
    requires k < |bits|
    ensures Shifted(bits[..k + 1]) == ShiftOne(Shifted(bits[..k]), bits[k])
  {
    assert bits[..k + 1] == bits[..k] + [bits[k]];
    ShiftedNext(bits[..k], bits[k]);
  }

  /** Eight levels shifted into an empty register, step by step. */
  lemma ShiftedLevels(x: bool, y: bool, z: bool, w: bool, r: bv8)
    ensures ShiftOne(r, x) == (r >> 1) | Flag(x, 0x80)
    ensures ShiftOne(ShiftOne(r, x), y) == (r >> 2) | Flag(x, 0x40) | Flag(y, 0x80)
    ensures ShiftOne(ShiftOne(ShiftOne(r, x), y), z) == (r >> 3) | Flag(x, 0x20) | Flag(y, 0x40) | Flag(z, 0x80)
    ensures ShiftOne(ShiftOne(ShiftOne(ShiftOne(r, x), y), z), w)
         == (r >> 4) | Flag(x, 0x10) | Flag(y, 0x20) | Flag(z, 0x40) | Flag(w, 0x80)
  {
  }

  lemma ShiftedFew(bits: seq<bool>)
    requires |bits| <= 4
    ensures |bits| == 0 ==> Shifted(bits) == 0
    ensures |bits| == 1 ==> Shifted(bits) == Flag(bits[0], 0x80)
    ensures |bits| == 2 ==> Shifted(bits) == Flag(bits[0], 0x40) | Flag(bits[1], 0x80)
    ensures |bits| == 3 ==> Shifted(bits) == Flag(bits[0], 0x20) | Flag(bits[1], 0x40) | Flag(bits[2], 0x80)
    ensures |bits| == 4 ==>
              Shifted(bits) == Flag(bits[0], 0x10) | Flag(bits[1], 0x20) | Flag(bits[2], 0x40) | Flag(bits[3], 0x80)
  {
    assert bits[..0] == [] && bits[..|bits|] == bits;
    if |bits| > 0 { ShiftedPrefix(bits, 0); }
    if |bits| > 1 { ShiftedPrefix(bits, 1); }
    if |bits| > 2 { ShiftedPrefix(bits, 2); }
    if |bits| > 3 { ShiftedPrefix(bits, 3); }
    ShiftedLevels(At(bits, 0), At(bits, 1), At(bits, 2), At(bits, 3), 0);
  }

  lemma ShiftedFiveSix(bits: seq<bool>)
    requires 5 <= |bits| <= 6
    ensures |bits| == 5 ==> Shifted(bits) == (Shifted(bits[..4]) >> 1) | Flag(bits[4], 0x80)
    ensures |bits| == 6 ==> Shifted(bits) == (Shifted(bits[..4]) >> 2) | Flag(bits[4], 0x40) | Flag(bits[5], 0x80)
  {
    assert bits[..|bits|] == bits;
    ShiftedPrefix(bits, 4);
    if |bits| > 5 { ShiftedPrefix(bits, 5); }
    ShiftedLevels(At(bits, 4), At(bits, 5), false, false, Shifted(bits[..4]));
  }

  lemma ShiftedSeven(bits: seq<bool>)
    requires |bits| == 7
    ensures Shifted(bits) == (Shifted(bits[..4]) >> 3) | Flag(bits[4], 0x20) | Flag(bits[5], 0x40) | Flag(bits[6], 0x80)
  {
    assert bits[..7] == bits;
    ShiftedPrefix(bits, 4);
    ShiftedPrefix(bits, 5);
    ShiftedPrefix(bits, 6);
    ShiftedLevels(bits[4], bits[5], bits[6], false, Shifted(bits[..4]));
  }

  lemma ShiftedEight(bits: seq<bool>)
    requires |bits| == 8
    ensures Shifted(bits) ==
              (Shifted(bits[..4]) >> 4) | Flag(bits[4], 0x10) | Flag(bits[5], 0x20) | Flag(bits[6], 0x40) |
                Flag(bits[7], 0x80)
  {
    assert bits[..8] == bits;
    ShiftedPrefix(bits, 4);
    ShiftedPrefix(bits, 5);
    ShiftedPrefix(bits, 6);
    ShiftedPrefix(bits, 7);
    ShiftedLevels(bits[4], bits[5], bits[6], bits[7], Shifted(bits[..4]));
  }

  /** A full register is the packed byte. */
  lemma ShiftedFull(bits: seq<bool>)
    requires |bits| == 8
    ensures Shifted(bits) == Pack(bits)
  {
    ShiftedFew(bits[..4]);
    ShiftedEight(bits);
  }

  lemma Lowered(r: bv8, n: nat, low: bv8)
    requires 1 <= n <= 7
    requires n == 1 ==> r >> 7 == low
    requires n == 2 ==> r >> 6 == low
    requires n == 3 ==> r >> 5 == low
    requires n == 4 ==> r >> 4 == low
    requires n == 5 ==> r >> 3 == low
    requires n == 6 ==> r >> 2 == low
    requires n == 7 ==> r >> 1 == low
    ensures r >> (8 - n) == low
  {
  }

  lemma ShiftedSevenPacks(bits: seq<bool>)
    requires |bits| == 7
    ensures Shifted(bits) >> 1 == Pack(bits)
  {
    ShiftedFew(bits[..4]);
    ShiftedSeven(bits);
  }

  lemma ShiftedFiveSixPacks(bits: seq<bool>)
    requires 5 <= |bits| <= 6
    ensures |bits| == 5 ==> Shifted(bits) >> 3 == Pack(bits)
    ensures |bits| == 6 ==> Shifted(bits) >> 2 == Pack(bits)
  {
    ShiftedFew(bits[..4]);
    ShiftedFiveSix(bits);
  }

  lemma ShiftedFewPacks(bits: seq<bool>)
    requires 1 <= |bits| <= 4
    ensures |bits| == 1 ==> Shifted(bits) >> 7 == Pack(bits)
    ensures |bits| == 2 ==> Shifted(bits) >> 6 == Pack(bits)
    ensures |bits| == 3 ==> Shifted(bits) >> 5 == Pack(bits)
    ensures |bits| == 4 ==> Shifted(bits) >> 4 == Pack(bits)
  {
    ShiftedFew(bits);
  }

  /** Shifted down to the bottom, the register is the packed byte. */
  lemma ShiftedPacks(bits: seq<bool>)
    requires 1 <= |bits| <= 7
    ensures Shifted(bits) >> (8 - |bits|) == Pack(bits)
  {
    if |bits| <= 4 {
      ShiftedFewPacks(bits);
    } else if |bits| <= 6 {
      ShiftedFiveSixPacks(bits);
    } else {
      ShiftedSevenPacks(bits);
    }
    Lowered(Shifted(bits), |bits|, Pack(bits));
  }

  // ----- prefixes of a transfer

  /** What has been sampled by the k-th tap does not depend on the later ones. */
  lemma {:induction false} SamplesPrefix(target: Target, before: seq<Tap>, taps: seq<Tap>, k: nat, emu: bool)
    requires k <= |taps|
    ensures Samples(target, before, taps[..k], emu) == Samples(target, before, taps, emu)[..Count(emu, k)]
    decreases |taps|
  {
    if k == |taps| {
      assert taps[..k] == taps;
    } else {
      var n := |taps| - 1;
      SamplesPrefix(target, before, taps[..n], k, emu);
      assert taps[..n][..k] == taps[..k];
    }
  }

  /** The taps of four more, or of the last few. */
  lemma TapsNext(out: seq<bv8>, i: nat, n: nat, taken: nat)
    requires 4 * i + taken <= n <= 4 * |out| && taken <= 4 && i < |out|
    ensures Taps(out, n)[..4 * i] + Taps([out[i]], taken) == Taps(out, n)[..4 * i + taken]
  {
    forall j | 0 <= j < taken
      ensures Taps(out, n)[4 * i + j] == Taps([out[i]], taken)[j]
    {
      assert (4 * i + j) / 4 == i && (4 * i + j) % 4 == j;
    }
  }

  lemma {:induction false} SamplesAppend(target: Target, before: seq<Tap>, taps: seq<Tap>, more: seq<Tap>, emu: bool)
    ensures Samples(target, before, taps + more, emu)
         == Samples(target, before, taps, emu) + Samples(target, before + taps, more, emu)
    decreases |more|
  {
    if more == [] {
      assert taps + more == taps;
    } else {
      var n := |more| - 1;
      SamplesAppend(target, before, taps, more[..n], emu);
      assert (taps + more)[..|taps + more| - 1] == taps + more[..n];
      assert before + (taps + more) == before + taps + more;
    }
  }

  // ----- the port

  const SIGNAL_MASK: bv8 := 0x03
  const CLK: bv8 := 0x10

  class Port {
    const target: Target
    var out: bv8
    var taps: seq<Tap>

    /** TCK rests low. */
    ghost predicate Valid()
      reads this
    {
      out & 0x10 == 0
    }

    constructor (target: Target)
      ensures Valid() && taps == [] && this.target == target
    {
      this.target, out, taps := target, 0x0c, [];
    }

    /** The reset lines, which no tap touches. */
    function Resets(): (r: bv8)
      reads this
    {
      out & 0x0c
    }

    /** Sets TDI and TMS and pulses TCK. */
    method Clock(tmsTdi: bv8)
      requires Valid() && tmsTdi & 0x03 == tmsTdi
      modifies this
      ensures Valid() && taps == old(taps) + [Tap(tmsTdi & 0x01 != 0, tmsTdi & 0x02 != 0)]
      ensures Resets() == old(Resets())
    {
      out := (out & !SIGNAL_MASK) | tmsTdi;
      out := out | CLK;
      taps := taps + [Tap(out & 0x01 != 0, out & 0x02 != 0)];
      out := out & !CLK;
    }

    /** The input register: TDO on pin 5, EMU on pin 6. */
    method In() returns (pins: bv8)
      requires Valid()
      ensures (pins >> 5) & 0x01 == Flag(target(taps).tdo, 0x01) && (pins >> 6) & 0x01 == Flag(target(taps).emu, 0x01)
      ensures (pins << 2) & 0x80 == Flag(target(taps).tdo, 0x80) && (pins << 1) & 0x80 == Flag(target(taps).emu, 0x80)
    {
      pins := Flag(target(taps).tdo, 0x20) | Flag(target(taps).emu, 0x40) | (out & 0x1f);
    }

    /** The levels of TDO and EMU in bits 0 and 1. */
    method ReadInput() returns (r: bv8)
      requires Valid()
      ensures r == Pack(Sampled(true, target(taps)))
    {
      var data := In();
      r := ((data >> 5) & 0x01) | (((data >> 6) & 0x01) << 1);
    }

    /** The reset lines are TRST on pin 2 and SRST on pin 3. */
    method SetTrst(trst: bv8)
      requires Valid() && trst & 0x01 == trst
      modifies this
      ensures Valid() && taps == old(taps)
      ensures Resets() == (old(Resets()) & 0x08) | (trst << 2)
    {
      out := (out & !0x04) | (trst << 2);
    }

    method SetSrst(srst: bv8)
      requires Valid() && srst & 0x01 == srst
      modifies this
      ensures Valid() && taps == old(taps)
      ensures Resets() == (old(Resets()) & 0x04) | (srst << 3)
    {
      out := (out & !0x08) | (srst << 3);
    }

    method SetTrstSrst(trst: bv8, srst: bv8)
      requires Valid() && trst & 0x01 == trst && srst & 0x01 == srst
      modifies this
      ensures Valid() && taps == old(taps)
      ensures Resets() == (srst << 3) | (trst << 2)
    {
      out := (out & !(0x08 | 0x04)) | (srst << 3) | (trst << 2);
    }

    /** Shifts the level of TDO into `register`. */
    method ShiftInTdo(register: bv8) returns (r: bv8)
      requires Valid()
      ensures r == ShiftOne(register, target(taps).tdo)
    {
      r := register >> 1;
      var pins := In();
      r := r | ((pins << 2) & 0x80);
    }

    method ShiftInEmu(register: bv8) returns (r: bv8)
      requires Valid()
      ensures r == ShiftOne(register, target(taps).emu)
    {
      r := register >> 1;
      var pins := In();
      r := r | ((pins << 1) & 0x80);
    }
  }

  // ----- the loops

  /** Shifts in what the target shows: TDO, and EMU if it is asked for. `sampled` is what the register holds. */
  method ShiftIn(port: Port, register: bv8, emu: bool, ghost sampled: seq<bool>) returns (r: bv8)
    requires port.Valid() && register == Shifted(sampled)
    ensures r == Shifted(sampled + Sampled(emu, port.target(port.taps)))
  {
    ghost var p := port.target(port.taps);
    r := port.ShiftInTdo(register);
    ShiftedNext(sampled, p.tdo);
    if emu {
      r := port.ShiftInEmu(r);
      ShiftedNext(sampled + [p.tdo], p.emu);
      assert sampled + [p.tdo] + [p.emu] == sampled + Sampled(emu, p);
    }
  }

  /** One of the four unrolled blocks. */
  method OneTap(port: Port, tmsTdi: bv8, register: bv8, emu: bool, ghost sampled: seq<bool>) returns (r: bv8)
    requires port.Valid() && tmsTdi & 0x03 == tmsTdi && register == Shifted(sampled)
    modifies port
    ensures port.Valid() && port.Resets() == old(port.Resets())
    ensures port.taps == old(port.taps) + [Tap(tmsTdi & 0x01 != 0, tmsTdi & 0x02 != 0)]
    ensures r == Shifted(sampled + Sampled(emu, port.target(port.taps)))
  {
    port.Clock(tmsTdi);
    r := ShiftIn(port, register, emu, sampled);
  }

  function PairOf(b: bv8): (r: Tap) {
    Tap(b & SIGNAL_MASK & 0x01 != 0, b & SIGNAL_MASK & 0x02 != 0)
  }

  /** The pairs a round tests are the taps of the byte. */
  lemma TapBits(b: bv8)
    ensures TapOf(b, 0) == PairOf(b) && TapOf(b, 1) == PairOf(b >> 2)
    ensures TapOf(b, 2) == PairOf(b >> 2 >> 2) && TapOf(b, 3) == PairOf(b >> 2 >> 2 >> 2)
  {
  }

  /** One tap more of a round. */
  lemma RoundNext(target: Target, before: seq<Tap>, outByte: bv8, k: nat, emu: bool, sampled: seq<bool>)
    requires k < 4
    ensures var done, more := Taps([outByte], k), Taps([outByte], k + 1);
            && before + done + [TapOf(outByte, k)] == before + more
            && sampled + Samples(target, before, done, emu) + Sampled(emu, target(before + more))
               == sampled + Samples(target, before, more, emu)
  {
    var done, more := Taps([outByte], k), Taps([outByte], k + 1);
    assert more == done + [TapOf(outByte, k)];
    SamplesNext(target, before, done, TapOf(outByte, k), emu);
  }

  lemma NoTaps(target: Target, before: seq<Tap>, outByte: bv8, emu: bool, sampled: seq<bool>)
    ensures before + Taps([outByte], 0) == before &&
            sampled + Samples(target, before, Taps([outByte], 0), emu) == sampled
  {
  }

  /** One of the four unrolled blocks as block k of a round. */
  method RoundTap(port: Port, outData: bv8, register: bv8, emu: bool,
                  ghost before: seq<Tap>, ghost outByte: bv8, ghost k: nat, ghost sampled: seq<bool>) returns (r: bv8)
    requires port.Valid() && k < 4 && PairOf(outData) == TapOf(outByte, k)
    requires port.taps == before + Taps([outByte], k)
    requires register == Shifted(sampled + Samples(port.target, before, Taps([outByte], k), emu))
    modifies port
    ensures port.Valid() && port.Resets() == old(port.Resets()) && port.taps == before + Taps([outByte], k + 1)
    ensures r == Shifted(sampled + Samples(port.target, before, Taps([outByte], k + 1), emu))
  {
    RoundNext(port.target, before, outByte, k, emu, sampled);
    r := OneTap(port, outData & SIGNAL_MASK, register, emu,
                sampled + Samples(port.target, before, Taps([outByte], k), emu));
  }

  /**
   One round of the unrolled loop, left early when the last tap is done. `sampled` is what the register
   holds.
   */
  method FourTaps(port: Port, outByte: bv8, register: bv8, left: nat, emu: bool, ghost sampled: seq<bool>)
    returns (r: bv8, taken: nat)
    requires port.Valid() && left >= 1 && register == Shifted(sampled)
    modifies port
    ensures port.Valid() && port.Resets() == old(port.Resets())
    ensures taken == (if left < 4 then left else 4)
    ensures port.taps == old(port.taps) + Taps([outByte], taken)
    ensures r == Shifted(sampled + Samples(port.target, old(port.taps), Taps([outByte], taken), emu))
  {
    ghost var before := port.taps;
    var outData := outByte;
    TapBits(outByte);
    NoTaps(port.target, before, outByte, emu, sampled);
    r := RoundTap(port, outData, register, emu, before, outByte, 0, sampled);
    if left <= 1 {
      return r, 1;
    }
    outData := outData >> 2;
    r := RoundTap(port, outData, r, emu, before, outByte, 1, sampled);
    if left <= 2 {
      return r, 2;
    }
    outData := outData >> 2;
    r := RoundTap(port, outData, r, emu, before, outByte, 2, sampled);
    if left <= 3 {
      return r, 3;
    }
    outData := outData >> 2;
    r := RoundTap(port, outData, r, emu, before, outByte, 3, sampled);
    return r, 4;
  }

  lemma PrefixGrows(all: seq<bool>, from: nat, k: nat, l: nat, more: seq<bool>)
    requires from <= k <= l <= |all| && all[..l] == all[..k] + more
    ensures all[from..l] == all[from..k] + more
  {
    assert all[from..l] == all[..l][from..] && all[from..k] == all[..k][from..];
  }

  /** The samples of one round are the next ones of the whole transfer. */
  lemma SampledNext(target: Target, before: seq<Tap>, out: seq<bv8>, n: nat, i: nat, taken: nat, emu: bool, from: nat)
    requires 4 * i + taken <= n <= 4 * |out| && taken <= 4 && i < |out|
    requires from <= Count(emu, 4 * i)
    ensures var all := Samples(target, before, Taps(out, n), emu);
            all[from..Count(emu, 4 * i + taken)] ==
              all[from..Count(emu, 4 * i)] + Samples(target, before + Taps(out, n)[..4 * i], Taps([out[i]], taken), emu)
  {
    var all, taps := Samples(target, before, Taps(out, n), emu), Taps(out, n);
    var more := Samples(target, before + taps[..4 * i], Taps([out[i]], taken), emu);
    TapsNext(out, i, n, taken);
    SamplesAppend(target, before, taps[..4 * i], Taps([out[i]], taken), emu);
    SamplesPrefix(target, before, taps, 4 * i, emu);
    SamplesPrefix(target, before, taps, 4 * i + taken, emu);
    assert all[..Count(emu, 4 * i + taken)] == all[..Count(emu, 4 * i)] + more;
    PrefixGrows(all, from, Count(emu, 4 * i), Count(emu, 4 * i + taken), more);
  }

  /** The first m bytes from `off` on are the packed samples. */
  predicate Packed(buf: seq<bv8>, off: nat, bits: seq<bool>, m: nat)
    requires off + m <= |buf| && 8 * m <= |bits| + 7
  {
    forall k :: 0 <= k < m ==> buf[off + k] == InByte(bits, k)
  }

  method Store(buf: array<bv8>, off: nat, m: nat, b: bv8, ghost bits: seq<bool>)
    requires off + m < buf.Length && 8 * m < |bits| && b == InByte(bits, m)
    requires Packed(buf[..], off, bits, m)
    modifies buf
    ensures Packed(buf[..], off, bits, m + 1)
    ensures buf[..off] == old(buf[..off]) && buf[off + m + 1..] == old(buf[off + m + 1..])
  {
    buf[off + m] := b;
  }

  function OutBytes(n: nat): (r: nat) {
    (n + 3) / 4
  }

  /** A register that holds the next eight samples is the next byte. */
  lemma FullByte(bits: seq<bool>, m: nat, c: nat)
    requires 8 * m + 8 == c <= |bits|
    ensures Shifted(bits[8 * m..c]) == InByte(bits, m)
    ensures Shifted(bits[c..c]) == 0
  {
    ShiftedFull(bits[8 * m..c]);
  }

  lemma LastByte(bits: seq<bool>, m: nat)
    requires 8 * m < |bits| < 8 * m + 8
    ensures Shifted(bits[8 * m..]) >> (8 - (|bits| - 8 * m)) == InByte(bits, m)
  {
    ShiftedPacks(bits[8 * m..]);
  }

  /** Four taps from byte i of the output on, or as many as are left; `from` is where the register starts. */
  method Round(port: Port, emu: bool, outByte: bv8, register: bv8, left: nat,
               ghost before: seq<Tap>, ghost out: seq<bv8>, ghost n: nat, ghost i: nat, ghost from: nat)
    returns (r: bv8, taken: nat)
    requires port.Valid() && i < |out| && outByte == out[i] && 4 * i < n <= 4 * |out| && left == n - 4 * i
    requires from <= Count(emu, 4 * i) && port.taps == before + Taps(out, n)[..4 * i]
    requires register == Shifted(Samples(port.target, before, Taps(out, n), emu)[from..Count(emu, 4 * i)])
    modifies port
    ensures port.Valid() && port.Resets() == old(port.Resets())
    ensures taken == (if left < 4 then left else 4)
    ensures port.taps == before + Taps(out, n)[..4 * i + taken]
    ensures r == Shifted(Samples(port.target, before, Taps(out, n), emu)[from..Count(emu, 4 * i + taken)])
  {
    ghost var all := Samples(port.target, before, Taps(out, n), emu);
    r, taken := FourTaps(port, outByte, register, left, emu, all[from..Count(emu, 4 * i)]);
    SampledNext(port.target, before, out, n, i, taken, emu, from);
    TapsNext(out, i, n, taken);
    Concat(before, Taps(out, n)[..4 * i], Taps([outByte], taken));
  }

  lemma TdoBoundary(done: nat, m: nat)
    requires 8 * m <= done <= 8 * m + 8
    ensures done % 8 == if done == 8 * m + 8 then 0 else done - 8 * m
    ensures done % 4 != 0 ==> done % 8 != 0
  {
    if done < 8 * m + 8 {
      DivMod(8, done, m, done - 8 * m);
    } else {
      DivMod(8, done, m + 1, 0);
    }
    if done == 8 * m || done == 8 * m + 8 {
      DivMod(4, done, if done == 8 * m then 2 * m else 2 * m + 2, 0);
    }
  }

  lemma PairBoundary(done: nat, m: nat)
    requires 4 * m <= done <= 4 * m + 4
    ensures done % 4 == if done == 4 * m + 4 then 0 else done - 4 * m
  {
    if done < 4 * m + 4 {
      DivMod(4, done, m, done - 4 * m);
    } else {
      DivMod(4, done, m + 1, 0);
    }
  }

  lemma Boundary(emu: bool, done: nat, m: nat)
    requires 8 * m <= Count(emu, done) <= 8 * m + 8
    ensures done % (if emu then 4 else 8) == 0 <==> Count(emu, done) == 8 * m || Count(emu, done) == 8 * m + 8
    ensures !emu && Count(emu, done) < 8 * m + 8 ==> done % 8 == done - 8 * m
    ensures emu && Count(emu, done) < 8 * m + 8 ==> 2 * (done % 4) == 2 * done - 8 * m
    ensures done % 4 != 0 ==> done % (if emu then 4 else 8) != 0
  {
    if emu {
      PairBoundary(done, m);
    } else {
      TdoBoundary(done, m);
    }
  }

  lemma Quarter(i: nat, taken: nat)
    requires taken <= 4
    ensures (4 * i + taken) % 4 == 0 <==> taken == 0 || taken == 4
  {
  }

  lemma TdoCounts(i: nat, n: nat, taken: nat, m: nat)
    requires 0 < taken <= 4 && 4 * i + taken <= n && 8 * m <= 4 * i < 8 * m + 8
    ensures 8 * m < 4 * i + taken <= 8 * m + 8 && m < InBytes(n)
  {
    assert i <= 2 * m + 1;
  }

  lemma PairCounts(i: nat, n: nat, taken: nat, m: nat)
    requires 0 < taken <= 4 && 4 * i + taken <= n && 8 * m <= 2 * (4 * i) < 8 * m + 8
    ensures 8 * m < 2 * (4 * i + taken) <= 8 * m + 8 && m < InBytes(2 * n)
  {
    assert i == m;
  }

  /** The counters after a round of the loop. */
  lemma RoundCounts(emu: bool, i: nat, n: nat, taken: nat, m: nat)
    requires 4 * i < n && taken == (if n - 4 * i < 4 then n - 4 * i else 4)
    requires 8 * m <= Count(emu, 4 * i) < 8 * m + 8
    ensures 8 * m < Count(emu, 4 * i + taken) <= 8 * m + 8 && Count(emu, 4 * i + taken) <= Count(emu, n)
    ensures m < InBytes(Count(emu, n)) && ((4 * i + taken) % 4 == 0 <==> taken == 4)
  {
    Quarter(i, taken);
    if emu {
      PairCounts(i, n, taken, m);
    } else {
      TdoCounts(i, n, taken, m);
    }
  }

  /** Stores the register when it holds eight samples. */
  method StoreFull(buf: array<bv8>, off: nat, m: nat, register: bv8, emu: bool, done: nat, taken: nat,
                   ghost bits: seq<bool>)
    returns (m': nat, r: bv8)
    requires 8 * m < Count(emu, done) <= 8 * m + 8 && Count(emu, done) <= |bits| && off + m < buf.Length
    requires done % 4 == 0 <==> taken == 4
    requires register == Shifted(bits[8 * m..Count(emu, done)]) && Packed(buf[..], off, bits, m)
    modifies buf
    ensures m <= m' && 8 * m' <= Count(emu, done) < 8 * m' + 8
    ensures r == Shifted(bits[8 * m'..Count(emu, done)]) && Packed(buf[..], off, bits, m')
    ensures buf[..off] == old(buf[..off]) && buf[off + m'..] == old(buf[off + m'..])
  {
    m', r := m, register;
    Boundary(emu, done, m);
    if taken == 4 && done % (if emu then 4 else 8) == 0 {
      FullByte(bits, m, Count(emu, done));
      Store(buf, off, m, register, bits);
      m', r := m + 1, 0;
    }
  }

  /** Stores the last, partly filled register. */
  method StoreRest(buf: array<bv8>, off: nat, m: nat, register: bv8, emu: bool, done: nat, ghost bits: seq<bool>)
    requires 8 * m <= |bits| == Count(emu, done) < 8 * m + 8 && off + InBytes(|bits|) <= buf.Length
    requires register == Shifted(bits[8 * m..]) && Packed(buf[..], off, bits, m)
    modifies buf
    ensures Packed(buf[..], off, bits, InBytes(|bits|))
    ensures buf[..off] == old(buf[..off]) && buf[off + InBytes(|bits|)..] == old(buf[off + InBytes(|bits|)..])
  {
    Boundary(emu, done, m);
    if done % (if emu then 4 else 8) != 0 {
      LastByte(bits, m);
      Store(buf, off, m, register >> (if emu then 8 - 2 * (done % 4) else 8 - done % 8), bits);
    }
  }

  /** One round: up to four taps from byte i of the output on, and the register stored if that fills it. */
  method Turn(port: Port, emu: bool, outByte: bv8, register: bv8, i: nat, n: nat, buf: array<bv8>, off: nat, m: nat,
              ghost before: seq<Tap>, ghost out: seq<bv8>, ghost all: seq<bool>)
    returns (r: bv8, m': nat, done: nat)
    requires port.Valid() && i < |out| && outByte == out[i] && 4 * i < n <= 4 * |out|
    requires all == Samples(port.target, before, Taps(out, n), emu) && off + InBytes(Count(emu, n)) <= buf.Length
    requires 8 * m <= Count(emu, 4 * i) < 8 * m + 8 && port.taps == before + Taps(out, n)[..4 * i]
    requires register == Shifted(all[8 * m..Count(emu, 4 * i)]) && Packed(buf[..], off, all, m)
    modifies port, buf
    ensures port.Valid() && port.Resets() == old(port.Resets())
    ensures done == (if n - 4 * i < 4 then n else 4 * (i + 1))
    ensures port.taps == before + Taps(out, n)[..done]
    ensures m <= m' && 8 * m' <= Count(emu, done) < 8 * m' + 8
    ensures r == Shifted(all[8 * m'..Count(emu, done)]) && Packed(buf[..], off, all, m')
    ensures buf[..off] == old(buf[..off]) && buf[off + m'..] == old(buf[off + m'..])
  {
    var taken;
    r, taken := Round(port, emu, outByte, register, n - 4 * i, before, out, n, i, 8 * m);
    done := 4 * i + taken;
    RoundCounts(emu, i, n, taken, m);
    assert 8 * m < Count(emu, done) <= 8 * m + 8 && Count(emu, done) <= |all| && m < InBytes(|all|);
    m', r := StoreFull(buf, off, m, r, emu, done, taken, all);
  }

  /** The loop: every tap is made, and what remains in the register is not stored yet. */
  method TapLoop(port: Port, emu: bool, outBuf: array<bv8>, outOff: nat, n: nat, inBuf: array<bv8>, inOff: nat,
                 ghost out: seq<bv8>, ghost all: seq<bool>)
    returns (inIdx: nat, register: bv8)
    requires port.Valid() && 1 <= n && outOff + OutBytes(n) <= outBuf.Length && out == outBuf[outOff..]
    requires all == Samples(port.target, port.taps, Taps(out, n), emu) && inOff + InBytes(|all|) <= inBuf.Length
    requires outBuf == inBuf ==> inOff <= outOff
    modifies port, inBuf
    ensures port.Valid() && port.Resets() == old(port.Resets())
    ensures port.taps == old(port.taps) + Taps(out, n)
    ensures 8 * inIdx <= Count(emu, n) < 8 * inIdx + 8
    ensures register == Shifted(all[8 * inIdx..]) && Packed(inBuf[..], inOff, all, inIdx)
    ensures inBuf[..inOff] == old(inBuf[..inOff]) && inBuf[inOff + inIdx..] == old(inBuf[inOff + inIdx..])
  {
    ghost var target, before, taps := port.target, port.taps, Taps(out, n);
    var outIdx, done := 0, 0;
    inIdx, register := 0, 0;
    while done < n
      invariant done == (if 4 * outIdx <= n then 4 * outIdx else n) && 4 * outIdx <= n + 3
      invariant 8 * inIdx <= Count(emu, done) < 8 * inIdx + 8
      invariant port.Valid() && port.Resets() == old(port.Resets()) && port.taps == before + taps[..done]
      invariant register == Shifted(all[8 * inIdx..Count(emu, done)])
      invariant Packed(inBuf[..], inOff, all, inIdx)
      invariant inBuf[..inOff] == old(inBuf[..inOff]) && inBuf[inOff + inIdx..] == old(inBuf[inOff + inIdx..])
      invariant outBuf != inBuf ==> outBuf[..] == old(outBuf[..])
    {
      var outByte := outBuf[outOff + outIdx];
      assert outByte == out[outIdx];
      register, inIdx, done := Turn(port, emu, outByte, register, outIdx, n, inBuf, inOff, inIdx, before, out, all);
      outIdx := outIdx + 1;
    }
    assert taps[..n] == taps && all[8 * inIdx..Count(emu, n)] == all[8 * inIdx..];
  }

  /** A length from 0xFFF9 on wraps in sixteen bits, to what eight bits of it would be anyway. */
  lemma LengthWraps(n: nat)
    requires n < 0x1_0000
    ensures U8(U16(n + 7) / 8) == U8((n + 7) / 8) && U8(U16(n + 3) / 4) == U8((n + 3) / 4)
  {
    assert n + 7 >= 0x1_0000 ==> U16(n + 7) < 8 && (n + 7) / 8 == 0x2000;
    assert n + 3 >= 0x1_0000 ==> U16(n + 3) < 4 && (n + 3) / 4 == 0x4000;
  }

  lemma PairBytes(n: nat)
    ensures InBytes(2 * n) == (n + 3) / 4
  {
  }

  /** The length the loops return, in eight bits. */
  function Length(emu: bool, n: nat): (r: nat)
    requires n < 0x1_0000
    ensures r == U8(InBytes(Count(emu, n)))
  {
    LengthWraps(n);
    PairBytes(n);
    if emu then U8(U16(n + 3) / 4) else U8(U16(n + 7) / 8)
  }

  /**
   Every tap of the output is clocked, and the input holds the packed samples; up to 1020 taps their number of
   bytes is returned, and beyond that its last eight bits. The input may lie in the same array as the output,
   not behind it.
   */
  method TapOutput(port: Port, emu: bool, outBuf: array<bv8>, outOff: nat, n: nat, inBuf: array<bv8>, inOff: nat)
    returns (len: nat)
    requires port.Valid() && 1 <= n < 0x1_0000
    requires outOff + OutBytes(n) <= outBuf.Length && inOff + InBytes(Count(emu, n)) <= inBuf.Length
    requires outBuf == inBuf ==> inOff <= outOff
    modifies port, inBuf
    ensures port.Valid() && port.Resets() == old(port.Resets())
    ensures port.taps == old(port.taps) + Taps(old(outBuf[outOff..]), n)
    ensures var all := Samples(port.target, old(port.taps), Taps(old(outBuf[outOff..]), n), emu);
            && len == U8(InBytes(|all|)) && (n <= 1020 ==> len == InBytes(|all|))
            && Packed(inBuf[..], inOff, all, InBytes(|all|))
            && inBuf[inOff + InBytes(|all|)..] == old(inBuf[inOff + InBytes(|all|)..])
    ensures inBuf[..inOff] == old(inBuf[..inOff])
  {
    ghost var out := outBuf[outOff..];
    ghost var all := Samples(port.target, port.taps, Taps(out, n), emu);
    var inIdx, register := TapLoop(port, emu, outBuf, outOff, n, inBuf, inOff, out, all);
    ghost var end, more := inOff + InBytes(|all|), InBytes(|all|) - inIdx;
    assert inBuf[inOff + inIdx..][more..] == inBuf[end..];
    assert old(inBuf[inOff + inIdx..])[more..] == old(inBuf[end..]);
    StoreRest(inBuf, inOff, inIdx, register, emu, n, all);
    len := Length(emu, n);
  }
}
