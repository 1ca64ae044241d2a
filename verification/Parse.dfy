/** Numbers on the command line, and the printers whose output they read back. */
module Parse {
  import opened Words

  /** A character of a line: eight bits. */
  type octet = c: char | c as int < 256 witness ' '

  type text = seq<octet>

  // ----- what a number means

  /** The value of a digit of the bases up to sixteen; 16 for what is none. */
  function Digit(c: octet): (d: nat)
    ensures d <= 16
  {
    if '0' <= c <= '9' then c as int - '0' as int
    else if 'a' <= c <= 'f' then c as int - 'a' as int + 10
    else if 'A' <= c <= 'F' then c as int - 'A' as int + 10
    else 16
  }

  predicate BaseOk(base: nat) {
    base == 2 || base == 10 || base == 16
  }

  predicate AllDigits(s: text, base: nat) {
    forall i :: 0 <= i < |s| ==> Digit(s[i]) < base
  }

  /** The positional value, as large as it may be. */
  function Positional(s: text, base: nat): (v: nat) {
    if s == [] then 0 else Positional(s[..|s| - 1], base) * base + Digit(s[|s| - 1])
  }

  /** A digit string in thirty-two bits. */
  function Digits(s: text, base: nat): (r: Option<nat>) {
    if AllDigits(s, base) then Some(U32(Positional(s, base))) else None
  }

  /** The second character may still choose the base if the first is 0 or chooses one itself. */
  predicate Undecided(c: octet) {
    c == '0' || c == 'b' || c == 'h'
  }

  /**
   What a number means: 0b, b: binary; 0x, h: hexadecimal; nothing: decimal. After a leading b or h a second
   b or x overrides it. No digits at all are zero, except behind a lone b or h and behind 0x.
   */
  function Meaning(s: text): (r: Option<nat>) {
    if |s| >= 2 && Undecided(s[0]) && s[1] == 'b' then Digits(s[2..], 2)
    else if |s| >= 2 && Undecided(s[0]) && s[1] == 'x' then (if |s| >= 3 then Digits(s[2..], 16) else None)
    else if |s| >= 1 && s[0] == 'b' then (if |s| >= 2 then Digits(s[1..], 2) else None)
    else if |s| >= 1 && s[0] == 'h' then (if |s| >= 2 then Digits(s[1..], 16) else None)
    else Digits(s, 10)
  }

  // ----- the parser

  /** The subtraction wraps around, so that what is below a digit is far above the bases. */
  function DigitToInt(ch: octet): (d: nat)
    ensures d < 16 || Digit(ch) < 16 ==> d == Digit(ch)
  {
    var r :=
      if ch >= 'a' then 'a' as int - 10
      else if ch >= 'A' then 'A' as int - 10
      else if ch <= '9' then '0' as int
      else 0;
    if ch as int >= r then ch as int - r else ch as int - r + 256
  }

  /** What the digits from i on make of `result`. */
  function Fold(s: text, i: nat, base: nat, result: nat): (r: Option<nat>)
    requires i <= |s|
    decreases |s| - i
  {
    if i == |s| then Some(result)
    else if Digit(s[i]) < base then Fold(s, i + 1, base, U32(result * base + Digit(s[i])))
    else None
  }

  lemma Wrap(y: nat, k: nat)
    ensures U32(y + k * 0x1_0000_0000) == U32(y)
  {
  }

  lemma WrapStep(x: nat, base: nat, d: nat)
    requires BaseOk(base)
    ensures U32(U32(x) * base + d) == U32(x * base + d)
  {
    var M := 0x1_0000_0000;
    var q := x / M;
    assert x == q * M + U32(x);
    assert x * base + d == U32(x) * base + d + q * base * M;
    Wrap(U32(x) * base + d, q * base);
  }

  /** Reading digit by digit in thirty-two bits gives the positional value, reduced. */
  lemma {:induction false} FoldDigits(s: text, from: nat, i: nat, base: nat)
    requires from <= i <= |s| && BaseOk(base) && AllDigits(s[from..i], base)
    ensures Fold(s, i, base, U32(Positional(s[from..i], base))) == Digits(s[from..], base)
    decreases |s| - i
  {
    if i == |s| {
      assert s[from..i] == s[from..];
    } else {
      assert s[from..i + 1] == s[from..i] + [s[i]];
      if Digit(s[i]) < base {
        assert s[from..i + 1][..i - from] == s[from..i];
        WrapStep(Positional(s[from..i], base), base, Digit(s[i]));
        FoldDigits(s, from, i + 1, base);
      } else {
        assert s[from..][i - from] == s[i];
      }
    }
  }

  /** The loop, from character i on. */
  function Scan(s: text, i: nat, base: nat, result: nat): (r: Option<nat>)
    requires i <= |s|
    decreases |s| - i
  {
    if i == |s| then Some(result)
    else if result == 0 && (i == 0 || i == 1) && s[i] == 'b' then (if |s| < 2 then None else Scan(s, i + 1, 2, result))
    else if result == 0 && i == 0 && s[i] == 'h' then (if |s| < 2 then None else Scan(s, i + 1, 16, result))
    else if result == 0 && i == 1 && s[i] == 'x' then (if |s| < 3 then None else Scan(s, i + 1, 16, result))
    else if Digit(s[i]) < base then Scan(s, i + 1, base, U32(result * base + Digit(s[i])))
    else None
  }

  lemma {:induction false} ScanFolds(s: text, i: nat, base: nat, result: nat)
    requires 2 <= i <= |s|
    ensures Scan(s, i, base, result) == Fold(s, i, base, result)
    decreases |s| - i
  {
    if i < |s| && Digit(s[i]) < base {
      ScanFolds(s, i + 1, base, U32(result * base + Digit(s[i])));
    }
  }

  lemma FoldFrom(s: text, from: nat, base: nat)
    requires from <= |s| && BaseOk(base)
    ensures Fold(s, from, base, 0) == Digits(s[from..], base)
  {
    assert s[from..from] == [];
    FoldDigits(s, from, from, base);
  }

  /** Behind a prefix of two characters. */
  lemma ScanBehindTwo(s: text, base: nat)
    requires 2 <= |s| && BaseOk(base)
    ensures Scan(s, 2, base, 0) == Digits(s[2..], base)
  {
    ScanFolds(s, 2, base, 0);
    FoldFrom(s, 2, base);
  }

  /** From the second character on, if that is no prefix. */
  lemma ScanSecond(s: text, base: nat, result: nat)
    requires 1 <= |s| && BaseOk(base) && (|s| >= 2 ==> (s[1] != 'b' && s[1] != 'x') || result != 0)
    ensures Scan(s, 1, base, result) == Fold(s, 1, base, result)
  {
    if |s| >= 2 && Digit(s[1]) < base {
      ScanFolds(s, 2, base, U32(result * base + Digit(s[1])));
    }
  }

  /** The loop computes what the number means. */
  lemma ScanMeans(s: text)
    ensures Scan(s, 0, 10, 0) == Meaning(s)
  {
    if s == [] {
      assert Digits(s, 10) == Some(0);
    } else if |s| >= 2 && Undecided(s[0]) && (s[1] == 'b' || s[1] == 'x') {
      ScanBehindTwo(s, if s[1] == 'b' then 2 else 16);
    } else if s[0] == 'b' || s[0] == 'h' {
      var base := if s[0] == 'b' then 2 else 16;
      ScanSecond(s, base, 0);
      FoldFrom(s, 1, base);
    } else {
      assert s[0..] == s;
      FoldFrom(s, 0, 10);
      if Digit(s[0]) < 10 {
        ScanSecond(s, 10, Digit(s[0]));
      }
    }
  }

  /** Lengths are eight bits. */
  method ParseNumber(str: text) returns (ok: bool, result: nat)
    requires |str| < 256
    ensures ok ==> Meaning(str) == Some(result)
    ensures !ok ==> Meaning(str) == None
  {
    var base := 10;
    var i := 0;
    result := 0;
    ghost var meaning := Scan(str, 0, 10, 0);
    ScanMeans(str);
    while i < |str|
      invariant i <= |str| && BaseOk(base) && Scan(str, i, base, result) == meaning
    {
      var c := str[i];
      if result == 0 {
        if (i == 0 || i == 1) && c == 'b' {
          if |str| < 2 {
            return false, result;
          }
          base, i := 2, i + 1;
          continue;
        } else if i == 0 && c == 'h' {
          if |str| < 2 {
            return false, result;
          }
          base, i := 16, i + 1;
          continue;
        } else if i == 1 && c == 'x' {
          if |str| < 3 {
            return false, result;
          }
          base, i := 16, i + 1;
          continue;
        }
      }
      var digit := DigitToInt(c);
      if digit < base {
        result := U32(result * base + digit);
      } else {
        return false, result;
      }
      i := i + 1;
    }
    return true, result;
  }

  /** An unprefixed decimal string stands for its positional value, reduced to thirty-two bits. */
  lemma DecimalMeans(s: text)
    requires AllDigits(s, 10)
    ensures Meaning(s) == Some(U32(Positional(s, 10)))
  {
  }

  // ----- numerals, without the digits' code

  const LOWER: text := "0123456789abcdef"
  const UPPER: text := "0123456789ABCDEF"

  lemma LowerDigits()
    ensures forall k :: 0 <= k < 16 ==> Digit(LOWER[k]) == k
  {
  }

  lemma UpperDigits()
    ensures forall k :: 0 <= k < 16 ==> Digit(UPPER[k]) == k
  {
  }

  lemma DecimalTable(c: octet)
    requires '0' <= c <= '9'
    ensures LOWER[c as int - '0' as int] == c
  {
  }

  lemma LetterTable(c: octet, k: nat)
    requires k < 6
    ensures c as int == 'a' as int + k ==> LOWER[10 + k] == c
    ensures c as int == 'A' as int + k ==> UPPER[10 + k] == c
  {
  }

  /** The digits are the characters of the two tables, each with its place as its value, and no others. */
  lemma DigitTable(c: octet, k: nat)
    requires k < 16
    ensures Digit(c) == k <==> c == LOWER[k] || c == UPPER[k]
  {
    LowerDigits();
    UpperDigits();
    if '0' <= c <= '9' {
      DecimalTable(c);
    } else if Digit(c) < 16 {
      LetterTable(c, Digit(c) - 10);
    }
  }

  function Power(base: nat, n: nat): (r: nat) {
    if n == 0 then 1 else base * Power(base, n - 1)
  }

  /** The number with these digits: each one counts with the power of the base that belongs to its place. */
  function Value(ds: seq<nat>, base: nat): (v: nat) {
    if ds == [] then 0 else ds[0] * Power(base, |ds| - 1) + Value(ds[1..], base)
  }

  lemma Distribute(base: nat, d: nat, p: nat, v: nat, last: nat)
    ensures d * (base * p) + (v * base + last) == (d * p + v) * base + last
  {
  }

  lemma {:induction false} ValueLast(ds: seq<nat>, base: nat)
    requires ds != []
    ensures Value(ds, base) == Value(ds[..|ds| - 1], base) * base + ds[|ds| - 1]
  {
    var n := |ds| - 1;
    if n > 0 {
      ValueLast(ds[1..], base);
      var tail, init := ds[1..], ds[..n];
      assert tail[..n - 1] == init[1..] && tail[n - 1] == ds[n];
      Distribute(base, ds[0], Power(base, n - 1), Value(init[1..], base), ds[n]);
      assert Power(base, n) == base * Power(base, n - 1);
    }
  }

  /** The text behind the prefix is these digits, in lower or upper case. */
  predicate Written(s: text, ds: seq<nat>, base: nat) {
    |s| == |ds| &&
    forall i :: 0 <= i < |ds| ==> ds[i] < base && ds[i] < 16 && (s[i] == LOWER[ds[i]] || s[i] == UPPER[ds[i]])
  }

  lemma WrittenDigit(s: text, ds: seq<nat>, base: nat, i: nat)
    requires Written(s, ds, base) && i < |s|
    ensures Digit(s[i]) == ds[i] < base
  {
    DigitTable(s[i], ds[i]);
  }

  lemma {:induction false} WrittenValue(s: text, ds: seq<nat>, base: nat)
    requires Written(s, ds, base)
    ensures Positional(s, base) == Value(ds, base)
  {
    if s != [] {
      var n := |s| - 1;
      WrittenDigit(s, ds, base, n);
      ValueLast(ds, base);
      assert Written(s[..n], ds[..n], base);
      WrittenValue(s[..n], ds[..n], base);
    }
  }

  lemma WrittenDigits(s: text, ds: seq<nat>, base: nat)
    requires Written(s, ds, base)
    ensures Digits(s, base) == Some(Value(ds, base) % 0x1_0000_0000)
  {
    forall i | 0 <= i < |s| ensures Digit(s[i]) < base {
      WrittenDigit(s, ds, base, i);
    }
    WrittenValue(s, ds, base);
  }

  /** The prefixes and their bases; a lone h is none in front of a b. */
  predicate Prefixed(s: text, prefix: text, base: nat) {
    && |prefix| <= |s| && s[..|prefix|] == prefix
    && match base
       case 2 => (prefix == "b" && |s| > 1) || prefix == "0b" || prefix == "bb" || prefix == "hb"
       case 10 => prefix == ""
       case 16 => (prefix == "h" && |s| > 1 && s[1] != 'b') ||
                  (|s| > 2 && (prefix == "0x" || prefix == "bx" || prefix == "hx"))
       case _ => false
  }

  lemma NoPrefixInside(s: text, ds: seq<nat>, base: nat, i: nat)
    requires Written(s, ds, base) && i < |s|
    ensures s[i] != 'x' && s[i] != 'h' && (base <= 10 ==> s[i] != 'b')
  {
    WrittenDigit(s, ds, base, i);
  }

  /** Every numeral means its value in thirty-two bits. */
  lemma NumeralMeans(s: text, prefix: text, ds: seq<nat>, base: nat)
    requires Prefixed(s, prefix, base) && Written(s[|prefix|..], ds, base)
    ensures Meaning(s) == Some(Value(ds, base) % 0x1_0000_0000)
  {
    WrittenDigits(s[|prefix|..], ds, base);
    if |prefix| == 0 {
      assert s[0..] == s;
      if |s| > 0 { NoPrefixInside(s, ds, base, 0); }
      if |s| > 1 { NoPrefixInside(s, ds, base, 1); }
    } else if prefix == "b" {
      NoPrefixInside(s[1..], ds, base, 0);
      assert s[0] == 'b' && s[1] != 'b' && s[1] != 'x';
    } else if prefix == "h" {
      NoPrefixInside(s[1..], ds, base, 0);
      assert s[0] == 'h' && s[1] != 'x';
    } else {
      assert s[0] == prefix[0] && s[1] == prefix[1];
    }
  }

  /** Nothing else means anything. */
  lemma OnlyNumerals(s: text) returns (prefix: text, ds: seq<nat>, base: nat)
    requires Meaning(s).Some?
    ensures Prefixed(s, prefix, base) && Written(s[|prefix|..], ds, base)
  {
    if |s| >= 2 && Undecided(s[0]) && (s[1] == 'b' || s[1] == 'x') {
      prefix, base := s[..2], if s[1] == 'b' then 2 else 16;
    } else if |s| >= 1 && (s[0] == 'b' || s[0] == 'h') {
      prefix, base := s[..1], if s[0] == 'b' then 2 else 16;
    } else {
      prefix, base := "", 10;
    }
    var t := s[|prefix|..];
    ds := seq(|t|, i requires 0 <= i < |t| => Digit(t[i]));
    forall i | 0 <= i < |t| ensures ds[i] < base && (t[i] == LOWER[ds[i]] || t[i] == UPPER[ds[i]]) {
      DigitTable(t[i], ds[i]);
    }
  }

  // ----- tokens between blanks

  predicate Blank(c: octet) {
    c == ' ' || c == '\t'
  }

  /** From `start` on the line has blanks up to `first`, then no blank up to `last`, then a blank or its end. */
  predicate TokenAt(line: text, start: nat, first: nat, last: nat) {
    && start <= first <= last <= |line|
    && (forall i :: start <= i < first ==> Blank(line[i]))
    && (forall i :: first <= i < last ==> !Blank(line[i]))
    && (first < |line| ==> !Blank(line[first]))
    && (last < |line| ==> Blank(line[last]))
  }

  /** There is only one such token. */
  lemma TokenUnique(line: text, start: nat, first: nat, last: nat, first': nat, last': nat)
    requires TokenAt(line, start, first, last) && TokenAt(line, start, first', last')
    ensures first == first' && last == last'
  {
  }

  const BLANKS: text := [' ', '\t']

  /** Text between blanks is a token, whatever it is. */
  lemma TokenBetween(before: text, w: text, behind: text)
    requires (forall i :: 0 <= i < |before| ==> before[i] in BLANKS) && (behind == [] || behind[0] in BLANKS)
    requires w != [] && forall i :: 0 <= i < |w| ==> w[i] !in BLANKS
    ensures TokenAt(before + w + behind, 0, |before|, |before| + |w|)
  {
  }

  method Tok(line: text, start: nat) returns (found: bool, tokStart: nat, tokEnd: nat)
    requires start <= |line|
    ensures TokenAt(line, start, tokStart, tokEnd)
    ensures forall first: nat, last: nat :: TokenAt(line, start, first, last) ==> first == tokStart && last == tokEnd
    ensures found <==> exists i :: start <= i < |line| && !Blank(line[i])
  {
    tokStart := start;
    while tokStart != |line|
      invariant start <= tokStart <= |line| && forall i :: start <= i < tokStart ==> Blank(line[i])
    {
      if line[tokStart] == ' ' || line[tokStart] == '\t' {
        tokStart := tokStart + 1;
      } else {
        break;
      }
    }
    tokEnd := tokStart;
    while tokEnd != |line|
      invariant tokStart <= tokEnd <= |line| && forall i :: tokStart <= i < tokEnd ==> !Blank(line[i])
      invariant tokStart < |line| ==> !Blank(line[tokStart])
    {
      if line[tokEnd] == ' ' || line[tokEnd] == '\t' {
        break;
      } else {
        tokEnd := tokEnd + 1;
      }
    }
    found := tokEnd != tokStart;
    forall first: nat, last: nat | TokenAt(line, start, first, last) ensures first == tokStart && last == tokEnd {
      TokenUnique(line, start, tokStart, tokEnd, first, last);
    }
  }

  /** Reads the next token as a number; only a number is stepped over. */
  method TokNum(line: text, start: nat) returns (ok: bool, next: nat, number: nat)
    requires start <= |line| < 256
    ensures start <= next <= |line|
    ensures ok ==>
              exists first: nat ::
                TokenAt(line, start, first, next) && first < next && Meaning(line[first..next]) == Some(number)
    ensures !ok ==>
              exists last: nat ::
                TokenAt(line, start, next, last) && (next == last || Meaning(line[next..last]) == None)
  {
    var found, tokStart, tokEnd := Tok(line, start);
    next, number := tokStart, 0;
    ok := false;
    if found {
      ok, number := ParseNumber(line[tokStart..tokEnd]);
      if ok {
        next := tokEnd;
      }
    }
  }
}
