/**
 Typed lines on a bus with every operation: numbers with a count go out as full-duplex transfers between `{` and
 the next closing bracket and as writes elsewhere; reads, bus commands and global commands.
 */
module CommandLines {
  import opened Words
  import opened Parse
  import Console
  import opened Commands

  predicate FullBus(ctx: Context) {
    ctx.bus.Some? && ctx.bus.value.start && ctx.bus.value.stop && ctx.bus.value.write && ctx.bus.value.read &&
      ctx.bus.value.xact
  }

  // ----- words with a count

  /** The characters that end a word. */
  const ENDS: text := [' ', '\t', ',', '[', '{', ']', '}', '#']

  lemma DelimiterTable(c: octet)
    ensures Delimiter(c) <==> c in ENDS
  {
  }

  /** A word that holds none of them and no colon. */
  predicate Simple(w: text) {
    w != [] && forall i :: 0 <= i < |w| ==> w[i] !in ENDS && w[i] != ':'
  }

  predicate EndsWord(rest: text) {
    rest == [] || rest[0] in ENDS
  }

  function CountText(n: Option<nat>): (s: text) {
    if n.Some? then [':'] + Console.Decimal(n.value) else []
  }

  /** A word as it is typed: `w`, or `w:n`. */
  function Counted(w: text, n: Option<nat>): (s: text) {
    w + CountText(n)
  }

  predicate Countable(n: Option<nat>) {
    n.Some? ==> n.value < 0x1_0000_0000
  }

  lemma DecimalSimple(v: nat)
    ensures Simple(Console.Decimal(v))
    ensures v < 0x1_0000_0000 ==> Meaning(Console.Decimal(v)) == Some(v)
  {
    var s := Console.Decimal(v);
    Console.DecimalValue(v);
    forall i | 0 <= i < |s| ensures s[i] !in ENDS && s[i] != ':' {
      assert Digit(s[i]) < 10;
    }
  }

  lemma OneColon(w: text, n: nat)
    requires Simple(w) && n < 0x1_0000_0000
    ensures var s := w + ([':'] + Console.Decimal(n)); Body(s) == w && Count(s) == n
  {
    var s := w + ([':'] + Console.Decimal(n));
    DecimalSimple(n);
    assert s[|w| + 1..] == Console.Decimal(n) && s[..|w|] == w;
    CountAt(s, |w|);
  }

  lemma CountedParts(w: text, n: Option<nat>)
    requires Simple(w) && Countable(n)
    ensures Body(Counted(w, n)) == w && Count(Counted(w, n)) == if n.Some? then n.value else 1
  {
    if n.Some? {
      OneColon(w, n.value);
    } else {
      assert w + [] == w;
      NoColon(w);
    }
  }

  lemma LexCounted(w: text, n: Option<nat>, rest: text)
    requires Simple(w) && Countable(n) && EndsWord(rest)
    ensures Lex(Counted(w, n) + rest) == [Word(Counted(w, n), rest)] + Lex(rest)
  {
    var s := Counted(w, n);
    if n.Some? {
      DecimalSimple(n.value);
    }
    forall i | 0 <= i < |s| ensures !Delimiter((s + rest)[i]) {
      DelimiterTable(s[i]);
    }
    if rest != [] {
      DelimiterTable(rest[0]);
    }
    TokenEnds(s + rest, 0, |s|);
    assert (s + rest)[0..|s|] == s && (s + rest)[|s|..] == rest && (s + rest)[0..] == s + rest;
  }

  /** Blanks and commas mean nothing. */
  lemma BlankFirst(c: octet, rest: text)
    requires c == ' ' || c == '\t' || c == ','
    ensures Lex([c] + rest) == Lex(rest)
  {
    assert ([c] + rest)[1..] == rest;
  }

  /** Behind # nothing is looked at, wherever it stands outside a word. */
  lemma CommentFirst(rest: text)
    ensures Lex(['#'] + rest) == []
  {
  }

  // ----- numbers and brackets

  datatype Item = Item(value: nat, count: Option<nat>)

  predicate Typable(i: Item) {
    i.value < 0x1_0000_0000 && Countable(i.count)
  }

  function ItemsText(items: seq<Item>): (s: text) {
    if items == [] then []
    else [' '] + Counted(Console.Decimal(items[0].value), items[0].count) + ItemsText(items[1..])
  }

  /** The low byte of each value, as often as it says. */
  function ItemsCalls(items: seq<Item>, duplex: bool): (r: seq<Call>) {
    if items == [] then []
    else
      var b, n := items[0].value % 256, if items[0].count.Some? then items[0].count.value else 1;
      seq(n, _ => if duplex then XactCall(b) else WriteCall(b)) + ItemsCalls(items[1..], duplex)
  }

  lemma OneItem(i: Item, duplex: bool)
    ensures ItemsCalls([i], duplex) ==
            Times(if duplex then XactCall(U8(i.value)) else WriteCall(U8(i.value)),
                  if i.count.Some? then i.count.value else 1)
  {
  }

  lemma NumberWord(ctx: Context, i: Item, after: text, first: bool, duplex: bool)
    requires FullBus(ctx) && Typable(i)
    ensures var s := Counted(Console.Decimal(i.value), i.count);
            WordCalls(ctx, s, after, first, duplex) == ItemsCalls([i], duplex) && !IsGlobal(ctx, Body(s), first)
  {
    DecimalSimple(i.value);
    CountedParts(Console.Decimal(i.value), i.count);
    OneItem(i, duplex);
  }

  lemma ItemsEndWord(items: seq<Item>, rest: text)
    requires EndsWord(rest)
    ensures EndsWord(ItemsText(items) + rest)
  {
    assert items == [] ==> ItemsText(items) + rest == rest;
  }

  lemma ItemsFirst(items: seq<Item>, rest: text)
    requires items != []
    ensures ItemsText(items) + rest ==
            [' '] + (Counted(Console.Decimal(items[0].value), items[0].count) + (ItemsText(items[1..]) + rest))
  {
  }

  lemma ItemLine(ctx: Context, i: Item, more: text, first: bool, duplex: bool)
    requires FullBus(ctx) && EndsWord(more) && Typable(i)
    ensures var line := [' '] + (Counted(Console.Decimal(i.value), i.count) + more);
            && Calls(ctx, Lex(line), first, duplex) == ItemsCalls([i], duplex) + Calls(ctx, Lex(more), false, duplex)
            && Duplex(ctx, Lex(line), first, duplex) == Duplex(ctx, Lex(more), false, duplex)
  {
    var w := Counted(Console.Decimal(i.value), i.count);
    BlankFirst(' ', w + more);
    DecimalSimple(i.value);
    LexCounted(Console.Decimal(i.value), i.count, more);
    NumberWord(ctx, i, more, first, duplex);
    CallsCons(ctx, Word(w, more), Lex(more), first, duplex);
  }

  lemma ItemsCallsFirst(items: seq<Item>, duplex: bool)
    requires items != []
    ensures ItemsCalls(items, duplex) == ItemsCalls([items[0]], duplex) + ItemsCalls(items[1..], duplex)
  {
    assert [items[0]][1..] == [];
  }

  lemma {:induction false} ItemsLine(ctx: Context, items: seq<Item>, rest: text, first: bool, duplex: bool)
    requires FullBus(ctx) && EndsWord(rest) && forall k :: 0 <= k < |items| ==> Typable(items[k])
    ensures Calls(ctx, Lex(ItemsText(items) + rest), first, duplex) ==
            ItemsCalls(items, duplex) + Calls(ctx, Lex(rest), first && items == [], duplex)
    ensures Duplex(ctx, Lex(ItemsText(items) + rest), first, duplex) ==
            Duplex(ctx, Lex(rest), first && items == [], duplex)
    decreases |items|
  {
    if items == [] {
      assert ItemsText(items) + rest == rest;
    } else {
      ItemsFirst(items, rest);
      ItemsEndWord(items[1..], rest);
      ItemLine(ctx, items[0], ItemsText(items[1..]) + rest, first, duplex);
      ItemsLine(ctx, items[1..], rest, false, duplex);
      ItemsCallsFirst(items, duplex);
      Concat(ItemsCalls([items[0]], duplex), ItemsCalls(items[1..], duplex), Calls(ctx, Lex(rest), false, duplex));
    }
  }

  lemma OpenLine(ctx: Context, c: octet, rest: text, first: bool, duplex: bool)
    requires FullBus(ctx) && (c == '[' || c == '{')
    ensures Calls(ctx, Lex([c] + rest), first, duplex) ==
            [StartCall] + Calls(ctx, Lex(rest), false, duplex || c == '{')
    ensures Duplex(ctx, Lex([c] + rest), first, duplex) == Duplex(ctx, Lex(rest), false, duplex || c == '{')
  {
    assert ([c] + rest)[1..] == rest;
    CallsCons(ctx, Open(c == '{'), Lex(rest), first, duplex);
  }

  lemma CloseLine(ctx: Context, c: octet, rest: text, first: bool, duplex: bool)
    requires FullBus(ctx) && (c == ']' || c == '}')
    ensures Calls(ctx, Lex([c] + rest), first, duplex) == [StopCall] + Calls(ctx, Lex(rest), false, false)
    ensures Duplex(ctx, Lex([c] + rest), first, duplex) == Duplex(ctx, Lex(rest), false, false)
  {
    assert ([c] + rest)[1..] == rest;
    CallsCons(ctx, Close, Lex(rest), first, duplex);
  }

  lemma Bracketed(inner: seq<Call>, outer: seq<Call>)
    ensures [StartCall] + (inner + ([StopCall] + (outer + []))) == [StartCall] + inner + [StopCall] + outer
  {
  }

  /**
   A bracket and numbers behind it: full duplex inside if it was opened by `{`, or if an earlier `{` has not been
   closed yet, and half duplex behind it, whichever bracket closes it.
   */
  lemma DuplexLine(ctx: Context, open: octet, items: seq<Item>, close: octet, more: seq<Item>,
                   first: bool, duplex: bool)
    requires FullBus(ctx) && (open == '[' || open == '{') && (close == ']' || close == '}')
    requires forall k :: 0 <= k < |items| ==> Typable(items[k])
    requires forall k :: 0 <= k < |more| ==> Typable(more[k])
    ensures var line := [open] + (ItemsText(items) + ([close] + ItemsText(more)));
            && Calls(ctx, Lex(line), first, duplex) ==
               [StartCall] + ItemsCalls(items, duplex || open == '{') + [StopCall] + ItemsCalls(more, false)
            && !Duplex(ctx, Lex(line), first, duplex)
  {
    var inside := duplex || open == '{';
    var closed := [close] + ItemsText(more);
    OpenLine(ctx, open, ItemsText(items) + closed, first, duplex);
    ItemsLine(ctx, items, closed, false, inside);
    CloseLine(ctx, close, ItemsText(more), false, inside);
    ItemsLine(ctx, more, [], false, false);
    assert ItemsText(more) + [] == ItemsText(more);
    Bracketed(ItemsCalls(items, inside), ItemsCalls(more, false));
  }

  /** A bracket left open leaves full duplex on for the lines to come. */
  lemma OpenEnded(ctx: Context, open: octet, items: seq<Item>, first: bool, duplex: bool)
    requires FullBus(ctx) && (open == '[' || open == '{') && forall k :: 0 <= k < |items| ==> Typable(items[k])
    ensures var line := [open] + ItemsText(items);
            && Calls(ctx, Lex(line), first, duplex) == [StartCall] + ItemsCalls(items, duplex || open == '{')
            && Duplex(ctx, Lex(line), first, duplex) == (duplex || open == '{')
  {
    OpenLine(ctx, open, ItemsText(items), first, duplex);
    ItemsLine(ctx, items, [], false, duplex || open == '{');
    assert ItemsText(items) + [] == ItemsText(items);
  }

  // ----- other words

  lemma WordLine(ctx: Context, w: text, n: Option<nat>, rest: text, first: bool, duplex: bool)
    requires Simple(w) && Countable(n) && EndsWord(rest)
    ensures var s := Counted(w, n);
            Calls(ctx, Lex(s + rest), first, duplex) ==
              WordCalls(ctx, s, rest, first, duplex) +
                if IsGlobal(ctx, w, first) then [] else Calls(ctx, Lex(rest), false, duplex)
  {
    CountedParts(w, n);
    LexCounted(w, n, rest);
    CallsCons(ctx, Word(Counted(w, n), rest), Lex(rest), first, duplex);
  }

  lemma ReadWord(ctx: Context, c: octet, n: Option<nat>, rest: text, first: bool, duplex: bool)
    requires FullBus(ctx) && (c == 'r' || c == 'R') && Countable(n)
    ensures WordCalls(ctx, Counted([c], n), rest, first, duplex) == Times(ReadCall, if n.Some? then n.value else 1)
    ensures !IsGlobal(ctx, [c], first)
  {
    assert Digit(c) == 16 && Meaning([c]).None?;
    CountedParts([c], n);
  }

  /** `r:n` and `R:n` read n times, full duplex or not. */
  lemma ReadLine(ctx: Context, c: octet, n: Option<nat>, rest: text, first: bool, duplex: bool)
    requires FullBus(ctx) && (c == 'r' || c == 'R') && Countable(n) && EndsWord(rest)
    ensures Calls(ctx, Lex(Counted([c], n) + rest), first, duplex) ==
            Times(ReadCall, if n.Some? then n.value else 1) + Calls(ctx, Lex(rest), false, duplex)
  {
    ReadWord(ctx, c, n, rest, first, duplex);
    WordLine(ctx, [c], n, rest, first, duplex);
  }

  /** A word that is neither a number nor a read. */
  predicate Name(w: text) {
    Simple(w) && w != ['r'] && w != ['R'] && Meaning(w).None?
  }

  lemma NameCalls(ctx: Context, s: text, w: text, rest: text, first: bool, duplex: bool)
    requires Body(s) == w && w != ['r'] && w != ['R'] && Meaning(w).None?
    ensures |w| <= |s| && WordCalls(ctx, s, rest, first, duplex) ==
            if first && w in ctx.globals then [GlobalCall(w, s[|w|..] + rest)]
            else if ctx.bus.None? || ctx.bus.value.command.None? then [BadCmd]
            else if ctx.bus.value.command.value(w, Count(s)) then [CommandCall(w, Count(s))]
            else [CommandCall(w, Count(s)), BadCmd]
  {
  }

  /** A global command must come first on its line; it takes the rest as it stands, a count included. */
  lemma GlobalLine(ctx: Context, w: text, n: Option<nat>, rest: text, duplex: bool)
    requires Name(w) && Countable(n) && EndsWord(rest) && w in ctx.globals
    ensures Calls(ctx, Lex(Counted(w, n) + rest), true, duplex) ==
            [GlobalCall(w, CountText(n) + rest)]
  {
    var s := Counted(w, n);
    CountedParts(w, n);
    NameCalls(ctx, s, w, rest, true, duplex);
    WordLine(ctx, w, n, rest, true, duplex);
    assert s[|w|..] == CountText(n);
  }

  /** Any other name is for the bus, once and with its count, and an error if the bus does not know it. */
  lemma NameLine(ctx: Context, w: text, n: Option<nat>, rest: text, first: bool, duplex: bool)
    requires Name(w) && Countable(n) && EndsWord(rest) && (first ==> w !in ctx.globals)
    ensures Calls(ctx, Lex(Counted(w, n) + rest), first, duplex) ==
            (var count := if n.Some? then n.value else 1;
             if ctx.bus.None? || ctx.bus.value.command.None? then [BadCmd]
             else if ctx.bus.value.command.value(w, count) then [CommandCall(w, count)]
             else [CommandCall(w, count), BadCmd])
            + Calls(ctx, Lex(rest), false, duplex)
  {
    CountedParts(w, n);
    NameCalls(ctx, Counted(w, n), w, rest, first, duplex);
    WordLine(ctx, w, n, rest, first, duplex);
  }

  /** A number or a read for a bus that cannot do it is one error, whatever its count. */
  lemma RefusedLine(ctx: Context, w: text, n: Option<nat>, rest: text, first: bool, duplex: bool)
    requires Simple(w) && Countable(n) && EndsWord(rest)
    requires
      || ((w == ['r'] || w == ['R']) && (ctx.bus.None? || !ctx.bus.value.read))
      || (Meaning(w).Some? && (ctx.bus.None? || if duplex then !ctx.bus.value.xact else !ctx.bus.value.write))
    ensures Calls(ctx, Lex(Counted(w, n) + rest), first, duplex) == [BadCmd] + Calls(ctx, Lex(rest), false, duplex)
  {
    assert Digit('r') == 16 && Digit('R') == 16;
    CountedParts(w, n);
    WordLine(ctx, w, n, rest, first, duplex);
  }
}
