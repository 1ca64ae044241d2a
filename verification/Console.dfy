/** The printers of the console, and that the number parser reads back what they print. */
module Console {
  import opened Words
  import opened Parse

  function NibbleToChar(nibble: nat): (c: octet)
    requires nibble < 16
    ensures Digit(c) == nibble
  {
    if nibble < 10 then (nibble + '0' as int) as char else (nibble - 10 + 'A' as int) as char
  }

  lemma NibbleTable(nibble: nat)
    requires nibble < 16
    ensures NibbleToChar(nibble) == UPPER[nibble]
  {
    DigitTable(NibbleToChar(nibble), nibble);
  }

  // ----- fixed-width numbers

  function Hex8(h: byte): (s: text) {
    [NibbleToChar(h / 16), NibbleToChar(h % 16)]
  }

  /** The low n bits of b, the highest first. */
  function Bits(b: nat, n: nat): (s: text)
    ensures |s| == n && AllDigits(s, 2)
  {
    if n == 0 then [] else Bits(b / 2, n - 1) + [if b % 2 == 1 then '1' else '0']
  }

  method PutHex8(h: byte) returns (out: text)
    ensures out == Hex8(h)
  {
    out := [NibbleToChar(h / 16)];
    out := out + [NibbleToChar(h % 16)];
  }

  lemma Hex8Value(h: byte)
    ensures Digits(Hex8(h), 16) == Some(h)
  {
    var s := Hex8(h);
    assert s[..1] == [NibbleToChar(h / 16)] && s[..1][..0] == [];
    assert Positional(s[..1], 16) == h / 16;
  }

  method Put0x8(h: byte) returns (out: text)
    ensures Meaning(out) == Some(h) && out == ['0', 'x'] + Hex8(h)
  {
    var hex := PutHex8(h);
    out := ['0', 'x'] + hex;
    Hex8Value(h);
    assert out[2..] == hex;
  }

  const BYTE_BITS := 8

  function BitChar(b: nat): (c: octet) {
    if b % 2 == 1 then '1' else '0'
  }

  function NineChars(b: byte): (s: text) {
    ['b', BitChar(b / 128), BitChar(b / 64), BitChar(b / 32), BitChar(b / 16),
     BitChar(b / 8), BitChar(b / 4), BitChar(b / 2), BitChar(b)]
  }

  function Power2(n: nat): (p: nat) {
    if n == 0 then 1 else 2 * Power2(n - 1)
  }

  lemma Width(n: nat)
    requires n == 8
    ensures Power2(n) == 256
  {
    assert Power2(4) == 16;
    assert Power2(n) == 16 * Power2(n - 4);
  }

  lemma BitsNext(b: nat, n: nat)
    requires n > 0
    ensures Bits(b, n) == Bits(b / 2, n - 1) + [BitChar(b)]
  {
  }

  lemma Halves(b: nat)
    ensures b / 2 / 2 == b / 4 && b / 4 / 2 == b / 8 && b / 8 / 2 == b / 16 && b / 16 / 2 == b / 32
    ensures b / 32 / 2 == b / 64 && b / 64 / 2 == b / 128
  {
  }

  lemma FourBits(b: nat, n: nat)
    requires n >= 4
    ensures Bits(b, n) == Bits(b / 16, n - 4) + [BitChar(b / 8), BitChar(b / 4), BitChar(b / 2), BitChar(b)]
  {
    Halves(b);
    BitsNext(b, n);
    BitsNext(b / 2, n - 1);
    BitsNext(b / 4, n - 2);
    BitsNext(b / 8, n - 3);
  }

  lemma EightBits(b: nat, n: nat)
    requires n == 8
    ensures Bits(b, n) == [BitChar(b / 128), BitChar(b / 64), BitChar(b / 32), BitChar(b / 16),
                           BitChar(b / 8), BitChar(b / 4), BitChar(b / 2), BitChar(b)]
  {
    FourBits(b, n);
    FourBits(b / 16, n - 4);
    assert b / 16 / 8 == b / 128 && b / 16 / 4 == b / 64 && b / 16 / 2 == b / 32;
  }

  lemma {:induction false} BitsValue(b: nat, n: nat)
    requires b < Power2(n)
    ensures Positional(Bits(b, n), 2) == b
  {
    if n > 0 {
      BitsValue(b / 2, n - 1);
      assert Bits(b, n)[..n - 1] == Bits(b / 2, n - 1);
    }
  }

  lemma BinaryMeans(b: byte, n: nat)
    requires n == 8
    ensures NineChars(b) == ['b'] + Bits(b, n) && Meaning(NineChars(b)) == Some(b)
  {
    EightBits(b, n);
    var out := NineChars(b);
    assert out[1..] == Bits(b, n);
    assert Digit(out[1]) < 2;
    Width(n);
    BitsValue(b, n);
  }

  method PutBin(b: byte) returns (out: text)
    ensures Meaning(out) == Some(b) && out == ['b'] + Bits(b, BYTE_BITS)
  {
    out := ['b'];
    out := out + [BitChar(b / 128)];
    out := out + [BitChar(b / 64)];
    out := out + [BitChar(b / 32)];
    out := out + [BitChar(b / 16)];
    out := out + [BitChar(b / 8)];
    out := out + [BitChar(b / 4)];
    out := out + [BitChar(b / 2)];
    out := out + [BitChar(b)];
    assert out == NineChars(b);
    BinaryMeans(b, BYTE_BITS);
  }

  // ----- decimal numbers

  /** Without leading zeros. */
  function Decimal(n: nat): (s: text)
    ensures |s| > 0 && AllDigits(s, 10)
  {
    if n < 10 then [NibbleToChar(n)] else Decimal(n / 10) + [NibbleToChar(n % 10)]
  }

  lemma {:induction false} DecimalValue(n: nat)
    ensures Positional(Decimal(n), 10) == n
  {
    var s := Decimal(n);
    if n < 10 {
      assert s[..0] == [];
    } else {
      DecimalValue(n / 10);
      assert s[..|s| - 1] == Decimal(n / 10);
    }
  }

  /** What has been printed when all digits down to the m-th are out. */
  function Printed(q: nat): (s: text) {
    if q == 0 then [] else Decimal(q)
  }

  lemma Distribute(m: nat, a: nat, k: nat, l: nat)
    ensures m * (10 * a + k) + l == 10 * m * a + (m * k + l)
  {
    assert m * (10 * a + k) == m * (10 * a) + m * k;
  }

  /** One digit: `a` is what stands above the m-th digit, n what is left. */
  lemma NextDigit(number: nat, m: nat, a: nat, n: nat)
    requires m > 0 && number == 10 * m * a + n && n < 10 * m
    ensures n / m < 10 && number == m * (10 * a + n / m) + n % m
    ensures Printed(10 * a + n / m) == if 10 * a + n / m == 0 then [] else Printed(a) + [NibbleToChar(n / m)]
  {
    var k, l := n / m, n % m;
    assert n == m * k + l;
    Monotone(m, 9, k);
    Distribute(m, a, k, l);
  }

  predicate Power10(m: nat) {
    m in {1, 10, 100, 1000, 10000, 100000, 1000000, 10000000, 100000000, 1000000000}
  }

  /** The m-th digit, unless it is a leading zero. */
  method PutDigit(printed: text, n: nat, m: nat, inLeadingZeroes: bool, ghost number: nat, ghost a: nat)
    returns (out: text, n': nat, inLeadingZeroes': bool, ghost a': nat)
    requires m > 0 && number == 10 * m * a + n && n < 10 * m
    requires printed == Printed(a) && (inLeadingZeroes <==> a == 0)
    ensures number == m * a' + n' && n' < m
    ensures out == Printed(a') && (inLeadingZeroes' <==> a' == 0)
  {
    out, inLeadingZeroes', a' := printed, inLeadingZeroes, 10 * a + n / m;
    NextDigit(number, m, a, n);
    if n / m != 0 {
      inLeadingZeroes' := false;
    }
    if !inLeadingZeroes' {
      out := out + [NibbleToChar(n / m)];
    }
    n' := n % m;
  }

  lemma Tenth(m: nat)
    requires Power10(m) && m != 1
    ensures Power10(m / 10) && 10 * (m / 10) == m && m / 10 < m
  {
  }

  lemma LastDigit(number: nat, a: nat, n: nat)
    requires number == 10 * a + n && n < 10 && number < 0x1_0000_0000
    ensures Printed(a) + [NibbleToChar(n)] == Decimal(number) && Meaning(Decimal(number)) == Some(number)
  {
    DecimalValue(number);
    if a == 0 {
      assert [] + [NibbleToChar(n)] == [NibbleToChar(n)];
    }
  }

  /** No leading zeros. */
  lemma {:induction false} DecimalLeads(n: nat)
    ensures n > 0 ==> Decimal(n)[0] != '0'
    ensures Decimal(0) == ['0']
  {
    if n >= 10 {
      DecimalLeads(n / 10);
    }
  }

  method PutDec(number: nat) returns (out: text)
    requires number < 0x1_0000_0000
    ensures out == Decimal(number) && Meaning(out) == Some(number)
  {
    var n := number;
    var m := 1000000000;
    var inLeadingZeroes := true;
    out := [];
    ghost var a := 0;
    while m != 1
      invariant Power10(m) && number == 10 * m * a + n && n < 10 * m
      invariant out == Printed(a) && (inLeadingZeroes <==> a == 0)
      decreases m
    {
      out, n, inLeadingZeroes, a := PutDigit(out, n, m, inLeadingZeroes, number, a);
      Tenth(m);
      m := m / 10;
    }
    out := out + [NibbleToChar(n)];
    LastDigit(number, a, n);
  }
}
