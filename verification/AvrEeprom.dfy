/** The EEPROM, with a cell for each of its 16-bit addresses. */
module AvrEeprom {
  import opened Words

  const EEPROM_SPACE := 0x1_0000

  /** Cells `a`, `a` + 1 ... of the EEPROM, over the end and on from its start. */
  function EepromStored(e: seq<bv8>, a: nat, data: seq<bv8>): (r: seq<bv8>)
    requires |e| == EEPROM_SPACE && a < EEPROM_SPACE
    ensures |r| == |e|
    decreases |data|
  {
    if data == [] then e else EepromStored(e[a := data[0]], U16(a + 1), data[1..])
  }

  function EepromRead(e: seq<bv8>, a: nat, n: nat): (r: seq<bv8>)
    requires |e| == EEPROM_SPACE && a < EEPROM_SPACE
    ensures |r| == n
    decreases n
  {
    if n == 0 then [] else [e[a]] + EepromRead(e, U16(a + 1), n - 1)
  }

  lemma NextAddress(a: nat, n: nat)
    ensures U16(U16(a + n) + 1) == U16(a + (n + 1))
  {
  }

  /** One more byte of a read. */
  lemma ReadOne(e: seq<bv8>, a: nat, n: nat, reply: seq<bv8>)
    requires |e| == EEPROM_SPACE && a < EEPROM_SPACE && n > 0
    ensures reply + EepromRead(e, a, n) == reply + [e[a]] + EepromRead(e, U16(a + 1), n - 1)
  {
  }

  /** The number of cells from `a` on to cell `x`. */
  function Ahead(a: nat, x: nat): (d: nat)
    requires a < EEPROM_SPACE && x < EEPROM_SPACE
  {
    if a <= x then x - a else x + EEPROM_SPACE - a
  }

  lemma {:induction false} EepromOthers(e: seq<bv8>, a: nat, data: seq<bv8>, x: nat)
    requires |e| == EEPROM_SPACE && a < EEPROM_SPACE && x < EEPROM_SPACE && |data| <= Ahead(a, x)
    ensures EepromStored(e, a, data)[x] == e[x]
    decreases |data|
  {
    if data != [] {
      EepromOthers(e[a := data[0]], U16(a + 1), data[1..], x);
    }
  }

  /** EEPROM cells come back in order, also over the end of the address space. */
  lemma {:induction false} EepromRoundTrip(e: seq<bv8>, a: nat, data: seq<bv8>)
    requires |e| == EEPROM_SPACE && a < EEPROM_SPACE && |data| < EEPROM_SPACE
    ensures EepromRead(EepromStored(e, a, data), a, |data|) == data
    decreases |data|
  {
    if data != [] {
      var e', a' := e[a := data[0]], U16(a + 1);
      EepromRoundTrip(e', a', data[1..]);
      EepromOthers(e', a', data[1..], a);
    }
  }

  /** Byte i of a read is cell a + i, counted round the end. */
  lemma {:induction false} EepromReadAt(e: seq<bv8>, a: nat, n: nat, i: nat)
    requires |e| == EEPROM_SPACE && a < EEPROM_SPACE && i < n
    ensures EepromRead(e, a, n)[i] == e[(a + i) % 0x1_0000]
    decreases n
  {
    if i > 0 {
      EepromReadAt(e, U16(a + 1), n - 1, i - 1);
    }
  }

  /** Byte i of a write goes to cell a + i. */
  lemma EepromStoredAt(e: seq<bv8>, a: nat, data: seq<bv8>, i: nat)
    requires |e| == EEPROM_SPACE && a < EEPROM_SPACE && i < |data| < EEPROM_SPACE
    ensures EepromStored(e, a, data)[(a + i) % 0x1_0000] == data[i]
  {
    EepromRoundTrip(e, a, data);
    EepromReadAt(EepromStored(e, a, data), a, |data|, i);
  }
}
