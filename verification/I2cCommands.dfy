/**
 From a typed line to the I2C bus: brackets written out in characters reach the bus as the calls they stand for.
 */
module I2cCommands {
  import opened Words
  import opened Parse
  import Console
  import C = Commands
  import opened I2cWire
  import opened I2cBus
  import opened I2cTheorems
  import opened I2cBrackets

  // ----- brackets as text

  function TypedWrites(data: seq<bv8>): (s: text) {
    if data == [] then [] else [' '] + Console.Decimal(data[0] as nat) + TypedWrites(data[1..])
  }

  /** `[ a d1 .. dn]` or `[ a r:n]`, all numbers in decimal. */
  function Typed(b: Bracket): (s: text) {
    match b
    case WriteBracket(a, data) => ['['] + TypedWrites([a] + data) + [']']
    case ReadBracket(a, n) => ['['] + TypedWrites([a]) + [' ', 'r', ':'] + Console.Decimal(n) + [']']
  }

  function TypedLine(bs: seq<Bracket>): (s: text) {
    if bs == [] then [] else Typed(bs[0]) + TypedLine(bs[1..])
  }

  // ----- calls on the I2C bus

  function OpOf(c: C.Call): (ops: seq<Op>) {
    match c
    case StartCall => [Open]
    case StopCall => [Close]
    case WriteCall(b) => [Write(U8(b) as bv8)]
    case ReadCall => [Read]
    case _ => []
  }

  function OpsOf(calls: seq<C.Call>): (ops: seq<Op>) {
    if calls == [] then [] else OpOf(calls[0]) + OpsOf(calls[1..])
  }

  /** The I2C bus has no full-duplex transfer. */
  predicate I2cContext(ctx: C.Context) {
    ctx.bus.Some? && ctx.bus.value.start && ctx.bus.value.stop && ctx.bus.value.write && ctx.bus.value.read &&
      !ctx.bus.value.xact
  }

  lemma {:induction false} OpsOfAppend(x: seq<C.Call>, y: seq<C.Call>)
    ensures OpsOf(x + y) == OpsOf(x) + OpsOf(y)
    decreases |x|
  {
    if x == [] {
      assert x + y == y;
    } else {
      assert (x + y)[1..] == x[1..] + y;
      OpsOfAppend(x[1..], y);
    }
  }

  lemma {:induction false} OpsOfReads(n: nat)
    ensures OpsOf(C.Times(C.ReadCall, n)) == Reads(n)
  {
    if n > 0 {
      assert C.Times(C.ReadCall, n)[1..] == C.Times(C.ReadCall, n - 1);
      OpsOfReads(n - 1);
      assert Reads(n) == [Read] + Reads(n - 1);
    }
  }

  // ----- words

  predicate Plain(w: text) {
    w != [] && forall i :: 0 <= i < |w| ==> !C.Delimiter(w[i])
  }

  predicate StartsDelimited(s: text) {
    s != [] && C.Delimiter(s[0])
  }

  lemma LexWord(w: text, rest: text)
    requires Plain(w) && StartsDelimited(rest)
    ensures C.Lex(w + rest) == [C.Word(w, rest)] + C.Lex(rest)
  {
    C.WordLengthIs(w + rest, |w|);
    assert (w + rest)[..|w|] == w && (w + rest)[|w|..] == rest;
  }

  lemma DigitsPlain(s: text)
    requires AllDigits(s, 10)
    ensures forall i :: 0 <= i < |s| ==> !C.Delimiter(s[i]) && s[i] != ':'
  {
    forall i | 0 <= i < |s| ensures !C.Delimiter(s[i]) && s[i] != ':' {
      assert Digit(s[i]) < 10;
    }
  }

  lemma PrintedMeans(v: nat)
    requires v < 0x1_0000_0000
    ensures Meaning(Console.Decimal(v)) == Some(v)
  {
    Console.DecimalValue(v);
  }

  /** A number is one write. */
  lemma NumberCalls(ctx: C.Context, d: bv8, after: text, first: bool)
    requires I2cContext(ctx)
    ensures C.WordCalls(ctx, Console.Decimal(d as nat), after, first, false) == [C.WriteCall(d as nat)]
    ensures !C.IsGlobal(ctx, C.Body(Console.Decimal(d as nat)), first)
  {
    var w := Console.Decimal(d as nat);
    DigitsPlain(w);
    C.NoColon(w);
    PrintedMeans(d as nat);
    assert C.Times(C.WriteCall(d as nat), 1) == [C.WriteCall(d as nat)];
  }

  /** A repeated read. */
  lemma ReadWordCalls(ctx: C.Context, n: nat, after: text, first: bool)
    requires I2cContext(ctx) && n < 0x1_0000_0000
    ensures var w := ['r', ':'] + Console.Decimal(n);
            C.WordCalls(ctx, w, after, first, false) == C.Times(C.ReadCall, n) && !C.IsGlobal(ctx, C.Body(w), first)
  {
    var w := ['r', ':'] + Console.Decimal(n);
    PrintedMeans(n);
    assert w[2..] == Console.Decimal(n);
    C.CountAt(w, 1);
    assert w[..1] == ['r'];
    assert Digit('r') == 16;
  }

  // ----- lines

  /** The operations of the rest of a line. */
  function LineCalls(ctx: C.Context, s: text, first: bool): (ops: seq<Op>) {
    OpsOf(C.Calls(ctx, C.Lex(s), first, false))
  }

  lemma StepCalls(ctx: C.Context, l: C.Lexeme, s: text, rest: text, first: bool)
    requires C.Lex(s) == [l] + C.Lex(rest) && !C.Ends(ctx, l, first) && !C.DuplexAfter(l, false)
    ensures LineCalls(ctx, s, first) == OpsOf(C.LexemeCalls(ctx, l, first, false)) + LineCalls(ctx, rest, false)
  {
    C.CallsCons(ctx, l, C.Lex(rest), first, false);
    OpsOfAppend(C.LexemeCalls(ctx, l, first, false), C.Calls(ctx, C.Lex(rest), false, false));
  }

  lemma OneOp(c: C.Call)
    ensures OpsOf([c]) == OpOf(c)
  {
    assert [c][1..] == [];
  }

  lemma BracketCalls(ctx: C.Context, c: octet, rest: text, first: bool)
    requires I2cContext(ctx) && (c == '[' || c == ']')
    ensures LineCalls(ctx, [c] + rest, first) == [if c == '[' then Open else Close] + LineCalls(ctx, rest, false)
  {
    assert ([c] + rest)[1..] == rest;
    var l := if c == '[' then C.Open(false) else C.Close;
    StepCalls(ctx, l, [c] + rest, rest, first);
    OneOp(if c == '[' then C.StartCall else C.StopCall);
  }

  lemma BlankCalls(ctx: C.Context, rest: text, first: bool)
    ensures LineCalls(ctx, [' '] + rest, first) == LineCalls(ctx, rest, first)
  {
    assert ([' '] + rest)[1..] == rest;
  }

  lemma NumberOp(ctx: C.Context, d: bv8, more: text, first: bool)
    requires I2cContext(ctx) && StartsDelimited(more)
    ensures LineCalls(ctx, [' '] + Console.Decimal(d as nat) + more, first) == [Write(d)] + LineCalls(ctx, more, false)
  {
    var w := Console.Decimal(d as nat);
    assert [' '] + w + more == [' '] + (w + more);
    BlankCalls(ctx, w + more, first);
    DigitsPlain(w);
    LexWord(w, more);
    NumberCalls(ctx, d, more, first);
    StepCalls(ctx, C.Word(w, more), w + more, more, first);
    OneOp(C.WriteCall(d as nat));
  }

  lemma TypedSplit(data: seq<bv8>, rest: text)
    requires data != [] && StartsDelimited(rest)
    ensures TypedWrites(data) + rest == [' '] + Console.Decimal(data[0] as nat) + (TypedWrites(data[1..]) + rest)
    ensures StartsDelimited(TypedWrites(data[1..]) + rest)
  {
    Concat([' '] + Console.Decimal(data[0] as nat), TypedWrites(data[1..]), rest);
    var more := data[1..];
    if more == [] {
      assert TypedWrites(more) + rest == rest;
    } else {
      assert TypedWrites(more)[0] == ' ';
    }
  }

  lemma WritesSplit(data: seq<bv8>)
    requires data != []
    ensures Writes(data) == [Write(data[0])] + Writes(data[1..])
  {
  }

  lemma {:induction false} WritesCalls(ctx: C.Context, data: seq<bv8>, rest: text, first: bool)
    requires I2cContext(ctx) && StartsDelimited(rest)
    ensures LineCalls(ctx, TypedWrites(data) + rest, first) == Writes(data) + LineCalls(ctx, rest, first && data == [])
    decreases |data|
  {
    if data == [] {
      assert TypedWrites(data) + rest == rest;
    } else {
      var d, more := data[0], TypedWrites(data[1..]) + rest;
      TypedSplit(data, rest);
      NumberOp(ctx, d, more, first);
      WritesCalls(ctx, data[1..], rest, false);
      WritesSplit(data);
      Concat([Write(d)], Writes(data[1..]), LineCalls(ctx, rest, false));
    }
  }

  lemma ReadsCalls(ctx: C.Context, n: nat, rest: text)
    requires I2cContext(ctx) && n < 0x1_0000_0000 && StartsDelimited(rest)
    ensures LineCalls(ctx, [' ', 'r', ':'] + Console.Decimal(n) + rest, false) == Reads(n) + LineCalls(ctx, rest, false)
  {
    var w := ['r', ':'] + Console.Decimal(n);
    assert [' ', 'r', ':'] + Console.Decimal(n) + rest == [' '] + (w + rest);
    BlankCalls(ctx, w + rest, false);
    DigitsPlain(Console.Decimal(n));
    assert Plain(w);
    LexWord(w, rest);
    ReadWordCalls(ctx, n, rest, false);
    StepCalls(ctx, C.Word(w, rest), w + rest, rest, false);
    OpsOfReads(n);
  }

  predicate Typable(b: Bracket) {
    b.ReadBracket? ==> b.count < 0x1_0000_0000
  }

  lemma TypedWriteText(a: bv8, data: seq<bv8>, rest: text)
    ensures Typed(WriteBracket(a, data)) + rest == ['['] + (TypedWrites([a] + data) + ([']'] + rest))
  {
    var typed := TypedWrites([a] + data);
    assert ['['] + typed + [']'] + rest == ['['] + (typed + ([']'] + rest));
  }

  lemma WriteBracketOps(writes: seq<Op>, rest: seq<Op>)
    ensures [Open] + (writes + ([Close] + rest)) == [Open] + writes + [Close] + rest
  {
  }

  lemma {:induction false} TypedWriteBracket(ctx: C.Context, a: bv8, data: seq<bv8>, rest: text, first: bool)
    requires I2cContext(ctx)
    ensures LineCalls(ctx, Typed(WriteBracket(a, data)) + rest, first) ==
            [Open] + Writes([a] + data) + [Close] + LineCalls(ctx, rest, false)
  {
    var close, typed := [']'] + rest, TypedWrites([a] + data);
    TypedWriteText(a, data, rest);
    BracketCalls(ctx, '[', typed + close, first);
    WritesCalls(ctx, [a] + data, close, false);
    BracketCalls(ctx, ']', rest, false);
    WriteBracketOps(Writes([a] + data), LineCalls(ctx, rest, false));
  }

  lemma TypedReadText(a: bv8, n: nat, rest: text)
    ensures Typed(ReadBracket(a, n)) + rest ==
            ['['] + (TypedWrites([a]) + ([' ', 'r', ':'] + Console.Decimal(n) + ([']'] + rest)))
  {
  }

  lemma ReadBracketOps(a: bv8, n: nat, rest: seq<Op>)
    ensures [Open] + (Writes([a]) + (Reads(n) + ([Close] + rest))) == [Open] + Writes([a]) + Reads(n) + [Close] + rest
  {
  }

  lemma {:induction false} TypedReadBracket(ctx: C.Context, a: bv8, n: nat, rest: text, first: bool)
    requires I2cContext(ctx) && n < 0x1_0000_0000
    ensures LineCalls(ctx, Typed(ReadBracket(a, n)) + rest, first) ==
            [Open] + Writes([a]) + Reads(n) + [Close] + LineCalls(ctx, rest, false)
  {
    var close, typed := [']'] + rest, TypedWrites([a]);
    var counted := [' ', 'r', ':'] + Console.Decimal(n) + close;
    TypedReadText(a, n, rest);
    BracketCalls(ctx, '[', typed + counted, first);
    WritesCalls(ctx, [a], counted, false);
    ReadsCalls(ctx, n, close);
    BracketCalls(ctx, ']', rest, false);
    ReadBracketOps(a, n, LineCalls(ctx, rest, false));
  }

  /** A typed bracket reaches the bus as its operations. */
  lemma {:induction false} TypedCalls(ctx: C.Context, b: Bracket, rest: text, first: bool)
    requires I2cContext(ctx) && Typable(b)
    ensures LineCalls(ctx, Typed(b) + rest, first) == I2cTheorems.Ops(b) + LineCalls(ctx, rest, false)
  {
    match b
    case WriteBracket(a, data) =>
      TypedWriteBracket(ctx, a, data, rest, first);
      assert [Open] + Writes([a] + data) + [Close] == I2cTheorems.Ops(b);
    case ReadBracket(a, n) =>
      TypedReadBracket(ctx, a, n, rest, first);
      assert [Open] + Writes([a]) + Reads(n) + [Close] == I2cTheorems.Ops(b);
  }

  /** A line of typed brackets makes exactly the calls of the brackets, in order. */
  lemma {:induction false} TypedLineCalls(ctx: C.Context, bs: seq<Bracket>, first: bool)
    requires I2cContext(ctx) && forall i :: 0 <= i < |bs| ==> Typable(bs[i])
    ensures LineCalls(ctx, TypedLine(bs), first) == LineOps(bs)
    decreases |bs|
  {
    if bs != [] {
      TypedCalls(ctx, bs[0], TypedLine(bs[1..]), first);
      TypedLineCalls(ctx, bs[1..], false);
    }
  }

  /**
   So a typed line of brackets that are clean for every slave, well-formed ones and probes for write addresses,
   is clean on a free bus and leaves it free.
   */
  lemma TypedLineClean(ctx: C.Context, slave: Slave, s: State, bs: seq<Bracket>)
    requires I2cContext(ctx) && Polite(slave) && BusIdle(s.events)
    requires forall i :: 0 <= i < |bs| ==> AlwaysClean(CallsOf(bs[i])) && Typable(bs[i])
    ensures var ops := LineCalls(ctx, TypedLine(bs), true);
            CleanRun(slave, s, ops) && BusIdle(Run(slave, s, ops).events)
  {
    TypedLineCalls(ctx, bs, true);
    SameOps(bs);
    SessionClean(slave, s, SessionOf(bs));
  }
  /** What a typed line puts on the wire, for any slave: its brackets, one behind the other, and their bytes. */
  lemma TypedLineRun(ctx: C.Context, slave: Slave, s: State, bs: seq<Bracket>)
    requires I2cContext(ctx) && AllOrdinary(bs) && forall i :: 0 <= i < |bs| ==> Typable(bs[i])
    ensures var r := Run(slave, s, LineCalls(ctx, TypedLine(bs), true));
            r.events == LineEvents(slave, s.events, bs) && r.out == s.out + LineOut(slave, s.events, bs)
  {
    TypedLineCalls(ctx, bs, true);
    LineRun(slave, s, bs);
  }

  /** From the characters of a line, through the interpreter and the bus, down to the recorded line levels. */
  method TransferTyped(shell: C.Interpreter, bus: Bus, line: text, ghost bs: seq<Bracket>)
    requires bus.Valid() && Undisturbed(bus.Now()) && BusIdle(bus.hw.seen.events) && Polite(bus.hw.slave)
    requires I2cContext(shell.ctx) && !shell.duplex && |line| < 256 && line == TypedLine(bs)
    requires AllOrdinary(bs) && forall i :: 0 <= i < |bs| ==> Typable(bs[i])
    modifies shell, bus, bus.hw
    ensures bus.Valid() && Undisturbed(bus.Now()) && BusIdle(bus.hw.seen.events)
    ensures Decode(bus.hw.wave).events == LineEvents(bus.hw.slave, old(bus.hw.seen.events), bs)
    ensures bus.out == old(bus.out) + LineOut(bus.hw.slave, old(bus.hw.seen.events), bs)
  {
    var made := |shell.calls|;
    shell.ExecuteCommandLine(line);
    TypedLineCalls(shell.ctx, bs, true);
    TransferLine(bus, OpsOf(shell.calls[made..]), bs);
  }
}
