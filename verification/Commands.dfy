/**
 The command line interpreter: a scanner that looks at the character behind a token twice, and the calls it
 makes on the current bus.
 */
module Commands {
  import opened Words
  import opened Parse

  // ----- lexemes

  datatype Lexeme =
    | Open(duplex: bool)
    | Close
    /** A maximal run of other characters, with the line behind it. */
    | Word(text: text, after: text)

  predicate Delimiter(c: octet) {
    c == ' ' || c == '\t' || c == ',' || c == '[' || c == '{' || c == ']' || c == '}' || c == '#'
  }

  function WordLength(s: text): (n: nat)
    ensures n <= |s| && (n < |s| ==> Delimiter(s[n]))
    ensures forall i :: 0 <= i < n ==> !Delimiter(s[i])
  {
    if s == [] || Delimiter(s[0]) then 0 else 1 + WordLength(s[1..])
  }

  /** The lexemes up to a comment. */
  function Lex(s: text): (r: seq<Lexeme>)
    decreases |s|
  {
    if s == [] || s[0] == '#' then []
    else if s[0] == ' ' || s[0] == '\t' || s[0] == ',' then Lex(s[1..])
    else if s[0] == '[' || s[0] == '{' then [Open(s[0] == '{')] + Lex(s[1..])
    else if s[0] == ']' || s[0] == '}' then [Close] + Lex(s[1..])
    else
      var n := WordLength(s);
      [Word(s[..n], s[n..])] + Lex(s[n..])
  }

  // ----- what a line means

  /** Which operations the current bus has, and whether it knows a command of its own. */
  datatype Bus = Bus(start: bool, stop: bool, write: bool, read: bool, xact: bool, command: Option<(text, nat) -> bool>)

  datatype Call =
    | StartCall | StopCall | WriteCall(b: nat) | ReadCall | XactCall(b: nat)
    | CommandCall(name: text, repeat: nat)
    | GlobalCall(name: text, arguments: text)
    | BadCmd

  datatype Context = Context(bus: Option<Bus>, globals: seq<text>)

  /** The last colon that is not the first character, or the length. */
  function LastColon(s: text): (p: nat)
    ensures p <= |s| && (p < |s| ==> p > 0 && s[p] == ':')
    ensures forall i :: 0 < i < |s| && (p == |s| || p < i) ==> s[i] != ':'
  {
    if |s| <= 1 then |s|
    else if s[|s| - 1] == ':' then |s| - 1
    else
      var p := LastColon(s[..|s| - 1]);
      if p == |s| - 1 then |s| else p
  }

  /** What is repeated, and how often. A count that is no number repeats nothing, and stays part of the word. */
  function Body(s: text): (r: text) {
    var p := LastColon(s);
    if p < |s| && Meaning(s[p + 1..]).Some? then s[..p] else s
  }

  function Count(s: text): (n: nat) {
    var p := LastColon(s);
    if p == |s| then 1
    else if Meaning(s[p + 1..]).Some? then Meaning(s[p + 1..]).value
    else 0
  }

  function Times(c: Call, n: nat): (r: seq<Call>)
    ensures |r| == n && forall i :: 0 <= i < n ==> r[i] == c
  {
    seq(n, _ => c)
  }

  predicate IsRead(body: text) {
    body == ['r'] || body == ['R']
  }

  predicate IsGlobal(ctx: Context, body: text, first: bool) {
    first && body in ctx.globals && !IsRead(body) && Meaning(body).None?
  }

  /** What a word calls. */
  function WordCalls(ctx: Context, s: text, after: text, first: bool, duplex: bool): (r: seq<Call>) {
    var body, n := Body(s), Count(s);
    match Meaning(body)
    case Some(v) =>
      if ctx.bus.None? then [BadCmd]
      else if duplex && ctx.bus.value.xact then Times(XactCall(U8(v)), n)
      else if !duplex && ctx.bus.value.write then Times(WriteCall(U8(v)), n)
      else [BadCmd]
    case None =>
      if IsRead(body) then (if ctx.bus.Some? && ctx.bus.value.read then Times(ReadCall, n) else [BadCmd])
      else if first && body in ctx.globals then [GlobalCall(body, s[|body|..] + after)]
      else if ctx.bus.Some? && ctx.bus.value.command.Some? then
        [CommandCall(body, n)] + (if ctx.bus.value.command.value(body, n) then [] else [BadCmd])
      else [BadCmd]
  }

  function BracketCalls(ctx: Context, l: Lexeme): (r: seq<Call>) {
    if l.Open? then (if ctx.bus.Some? && ctx.bus.value.start then [StartCall] else [])
    else (if ctx.bus.Some? && ctx.bus.value.stop then [StopCall] else [])
  }

  function LexemeCalls(ctx: Context, l: Lexeme, first: bool, duplex: bool): (r: seq<Call>) {
    if l.Word? then WordCalls(ctx, l.text, l.after, first, duplex) else BracketCalls(ctx, l)
  }

  function DuplexAfter(l: Lexeme, duplex: bool): (r: bool) {
    if l.Open? then duplex || l.duplex else duplex && !l.Close?
  }

  /** A global command takes the rest of the line. */
  predicate Ends(ctx: Context, l: Lexeme, first: bool) {
    l.Word? && IsGlobal(ctx, Body(l.text), first)
  }

  /** The calls of a line: those of its lexemes, one after the other. */
  function Calls(ctx: Context, ls: seq<Lexeme>, first: bool, duplex: bool): (r: seq<Call>) {
    if ls == [] then []
    else if Ends(ctx, ls[0], first) then LexemeCalls(ctx, ls[0], first, duplex)
    else LexemeCalls(ctx, ls[0], first, duplex) + Calls(ctx, ls[1..], false, DuplexAfter(ls[0], duplex))
  }

  /** Full duplex stays on from a line to the next. */
  function Duplex(ctx: Context, ls: seq<Lexeme>, first: bool, duplex: bool): (r: bool) {
    if ls == [] then duplex
    else if Ends(ctx, ls[0], first) then duplex
    else Duplex(ctx, ls[1..], false, DuplexAfter(ls[0], duplex))
  }

  // ----- what the loops do

  /** Nothing with a colon in it is a number. */
  lemma ColonIsNoNumber(s: text, i: nat)
    requires i < |s| && s[i] == ':'
    ensures Meaning(s) == None
  {
    if i >= 2 {
      assert s[2..][i - 2] == ':';
    }
    if i >= 1 {
      assert s[1..][i - 1] == ':';
    }
  }

  /** Only the last colon can start a count. */
  lemma EarlierColon(s: text, p: nat, q: nat)
    requires p < q < |s| && s[q] == ':'
    ensures Meaning(s[p + 1..]) == None
  {
    ColonIsNoNumber(s[p + 1..], q - (p + 1));
  }

  /** The last colon before ptr is at `colon`, if any, and no count follows it. */
  predicate NoCount(s: text, colon: nat, ptr: nat) {
    && (colon > 0 ==> colon < ptr <= |s| && s[colon] == ':' && Meaning(s[colon + 1..]) == None)
    && forall i :: colon < i < ptr && i < |s| ==> s[i] != ':'
  }

  lemma LastColonIs(s: text, p: nat)
    requires 0 < p < |s| && s[p] == ':' && forall i :: p < i < |s| ==> s[i] != ':'
    ensures LastColon(s) == p
  {
  }

  lemma NoColon(s: text)
    requires forall i :: 0 < i < |s| ==> s[i] != ':'
    ensures LastColon(s) == |s|
  {
  }

  lemma NoCountAtAll(s: text, colon: nat)
    requires NoCount(s, colon, |s|)
    ensures Body(s) == s && Count(s) == if colon == 0 then 1 else 0
  {
    if colon == 0 {
      NoColon(s);
    } else {
      LastColonIs(s, colon);
    }
  }

  /** A colon with a number behind it is the last one. */
  lemma CountAt(s: text, p: nat)
    requires 0 < p < |s| && s[p] == ':' && Meaning(s[p + 1..]).Some?
    ensures Body(s) == s[..p] && Some(Count(s)) == Meaning(s[p + 1..])
  {
    forall i | p < i < |s| ensures s[i] != ':' {
      if s[i] == ':' {
        EarlierColon(s, p, i);
      }
    }
    LastColonIs(s, p);
  }

  lemma CallsCons(ctx: Context, l: Lexeme, ls: seq<Lexeme>, first: bool, duplex: bool)
    ensures Calls(ctx, [l] + ls, first, duplex) ==
              LexemeCalls(ctx, l, first, duplex)
              + (if Ends(ctx, l, first) then [] else Calls(ctx, ls, false, DuplexAfter(l, duplex)))
    ensures Duplex(ctx, [l] + ls, first, duplex) ==
              if Ends(ctx, l, first) then duplex else Duplex(ctx, ls, false, DuplexAfter(l, duplex))
  {
    assert ([l] + ls)[1..] == ls;
  }

  lemma AfterBracket(ctx: Context, l: Lexeme, rest: seq<Lexeme>, first: bool, duplex: bool, before: seq<Call>)
    requires !l.Word?
    ensures before + BracketCalls(ctx, l) + Calls(ctx, rest, false, DuplexAfter(l, duplex)) ==
            before + Calls(ctx, [l] + rest, first, duplex)
    ensures Duplex(ctx, rest, false, DuplexAfter(l, duplex)) == Duplex(ctx, [l] + rest, first, duplex)
  {
    CallsCons(ctx, l, rest, first, duplex);
    Concat(before, BracketCalls(ctx, l), Calls(ctx, rest, false, DuplexAfter(l, duplex)));
  }

  lemma LexStep(line: text, str: nat)
    requires str < |line|
    ensures var c, rest := line[str], Lex(line[str + 1..]);
            && (c == '#' ==> Lex(line[str..]) == [])
            && (c == ' ' || c == '\t' || c == ',' ==> Lex(line[str..]) == rest)
            && (c == '[' || c == '{' ==> Lex(line[str..]) == [Open(c == '{')] + rest)
            && (c == ']' || c == '}' ==> Lex(line[str..]) == [Close] + rest)
  {
    assert line[str..][1..] == line[str + 1..];
  }

  lemma WordLengthIs(s: text, n: nat)
    requires n <= |s| && (n < |s| ==> Delimiter(s[n])) && forall i :: 0 <= i < n ==> !Delimiter(s[i])
    ensures WordLength(s) == n
  {
  }

  /** A token that ends is the next lexeme. */
  lemma TokenEnds(line: text, tokenStart: nat, str: nat)
    requires tokenStart < str <= |line| && (str < |line| ==> Delimiter(line[str]))
    requires forall i :: tokenStart <= i < str ==> !Delimiter(line[i])
    ensures Lex(line[tokenStart..]) == [Word(line[tokenStart..str], line[str..])] + Lex(line[str..])
  {
    var s := line[tokenStart..];
    WordLengthIs(s, str - tokenStart);
    assert s[..str - tokenStart] == line[tokenStart..str] && s[str - tokenStart..] == line[str..];
  }

  /** What is left of the line: from the token's start on in a token, otherwise from `str` on. */
  predicate Scanned(line: text, str: nat, inToken: bool, tokenStart: nat, rest: seq<Lexeme>) {
    && str <= |line|
    && if inToken then
         && tokenStart < str && rest == Lex(line[tokenStart..])
         && forall i :: tokenStart <= i < str ==> !Delimiter(line[i])
       else rest == Lex(line[str..])
  }

  class Interpreter {
    const ctx: Context
    /** Kept from line to line. */
    var duplex: bool
    /** Every call made so far. */
    var calls: seq<Call>

    constructor (ctx: Context)
      ensures this.ctx == ctx && !duplex && calls == []
    {
      this.ctx, duplex, calls := ctx, false, [];
    }

    method Repeat(c: Call, n: nat)
      modifies this`calls
      ensures calls == old(calls) + Times(c, n)
    {
      var repeat: nat := n;
      while repeat != 0
        invariant repeat <= n && calls == old(calls) + Times(c, n - repeat)
        decreases repeat
      {
        repeat := repeat - 1;
        calls := calls + [c];
      }
    }

    /** Looks for a count from the left. */
    method SplitRepeat(s: text) returns (body: text, repeat: nat)
      requires |s| < 256
      ensures body == Body(s) && repeat == Count(s)
    {
      var ptr := 0;
      body, repeat := s, 1;
      ghost var colon := 0;
      while ptr != |s|
        invariant ptr <= |s| && body == s && repeat == (if colon == 0 then 1 else 0)
        invariant NoCount(s, colon, ptr)
      {
        if s[ptr] == ':' && ptr > 0 {
          var ok, number := ParseNumber(s[ptr + 1..]);
          if ok {
            CountAt(s, ptr);
            return s[..ptr], number;
          }
          repeat, colon := 0, ptr;
        }
        ptr := ptr + 1;
      }
      NoCountAtAll(s, colon);
    }

    /** Says whether the rest of the line is to be ignored. */
    method HandleCommand(s: text, after: text, firstToken: bool) returns (ignoreRest: bool)
      requires |s| < 256
      modifies this`calls
      ensures calls == old(calls) + WordCalls(ctx, s, after, firstToken, duplex)
      ensures ignoreRest == IsGlobal(ctx, Body(s), firstToken)
    {
      var body, repeat := SplitRepeat(s);
      ignoreRest := false;
      var ok, num := ParseNumber(body);
      if ok {
        if ctx.bus.Some? {
          if duplex && ctx.bus.value.xact {
            Repeat(XactCall(U8(num)), repeat);
            return;
          }
          if !duplex && ctx.bus.value.write {
            Repeat(WriteCall(U8(num)), repeat);
            return;
          }
        }
      } else if |body| == 1 && (body[0] == 'r' || body[0] == 'R') {
        if ctx.bus.Some? && ctx.bus.value.read {
          Repeat(ReadCall, repeat);
          return;
        }
      } else {
        if firstToken {
          if body in ctx.globals {
            calls := calls + [GlobalCall(body, s[|body|..] + after)];
            return true;
          }
        }
        if ctx.bus.Some? && ctx.bus.value.command.Some? {
          calls := calls + [CommandCall(body, repeat)];
          if ctx.bus.value.command.value(body, repeat) {
            return;
          }
        }
      }
      calls := calls + [BadCmd];
    }

    /** A bracket. */
    method Bracket(l: Lexeme)
      requires !l.Word?
      modifies this
      ensures calls == old(calls) + BracketCalls(ctx, l) && duplex == DuplexAfter(l, old(duplex))
    {
      if l.Open? {
        if l.duplex {
          duplex := true;
        }
        if ctx.bus.Some? && ctx.bus.value.start {
          calls := calls + [StartCall];
        }
      } else {
        duplex := false;
        if ctx.bus.Some? && ctx.bus.value.stop {
          calls := calls + [StopCall];
        }
      }
    }

    /** One character outside a token; `stop` at a comment, `inToken` if a token starts here. */
    method Search(line: text, str: nat, firstToken: bool, ghost rest: seq<Lexeme>)
      returns (stop: bool, inToken: bool, firstToken': bool, ghost rest': seq<Lexeme>)
      requires str < |line| && rest == Lex(line[str..])
      modifies this
      ensures stop ==> rest' == []
      ensures inToken ==> !Delimiter(line[str]) && !stop && rest' == rest
      ensures !stop && !inToken ==> rest' == Lex(line[str + 1..])
      ensures calls + Calls(ctx, rest', firstToken', duplex) == old(calls) + Calls(ctx, rest, firstToken, old(duplex))
      ensures Duplex(ctx, rest', firstToken', duplex) == Duplex(ctx, rest, firstToken, old(duplex))
    {
      stop, inToken, firstToken', rest' := false, false, firstToken, rest;
      LexStep(line, str);
      var c := line[str];
      if c == '#' {
        stop := true;
      } else if c == ' ' || c == '\t' || c == ',' {
        rest' := Lex(line[str + 1..]);
      } else if c == '{' || c == '[' {
        AfterBracket(ctx, Open(c == '{'), Lex(line[str + 1..]), firstToken, duplex, calls);
        Bracket(Open(c == '{'));
        firstToken', rest' := false, Lex(line[str + 1..]);
      } else if c == ']' || c == '}' {
        AfterBracket(ctx, Close, Lex(line[str + 1..]), firstToken, duplex, calls);
        Bracket(Close);
        firstToken', rest' := false, Lex(line[str + 1..]);
      } else {
        inToken := true;
      }
    }

    /** The end of a token. */
    method EndToken(line: text, tokenStart: nat, str: nat, firstToken: bool, ghost rest: seq<Lexeme>)
      returns (ignoreRest: bool, ghost rest': seq<Lexeme>)
      requires tokenStart < str <= |line| < 256 && (str < |line| ==> Delimiter(line[str]))
      requires forall i :: tokenStart <= i < str ==> !Delimiter(line[i])
      requires rest == Lex(line[tokenStart..])
      modifies this`calls
      ensures rest' == if ignoreRest then [] else Lex(line[str..])
      ensures calls + Calls(ctx, rest', false, duplex) == old(calls) + Calls(ctx, rest, firstToken, duplex)
      ensures Duplex(ctx, rest', false, duplex) == Duplex(ctx, rest, firstToken, duplex)
    {
      ghost var l, more := Word(line[tokenStart..str], line[str..]), Lex(line[str..]);
      TokenEnds(line, tokenStart, str);
      CallsCons(ctx, l, more, firstToken, duplex);
      ignoreRest := HandleCommand(line[tokenStart..str], line[str..], firstToken);
      rest' := if ignoreRest then [] else more;
      Concat(old(calls), LexemeCalls(ctx, l, firstToken, duplex), Calls(ctx, rest', false, duplex));
    }

    /** The scanner: the calls are those the lexemes of the line stand for. */
    method ExecuteCommandLine(line: text)
      requires |line| < 256
      modifies this
      ensures calls == old(calls) + Calls(ctx, Lex(line), true, old(duplex))
      ensures duplex == Duplex(ctx, Lex(line), true, old(duplex))
    {
      var inToken, firstToken, str, tokenStart := false, true, 0, 0;
      ghost var rest := Lex(line);
      ghost var all, last := calls + Calls(ctx, rest, true, duplex), Duplex(ctx, rest, true, duplex);
      assert line[0..] == line;
      while str != |line|
        invariant Scanned(line, str, inToken, tokenStart, rest)
        invariant calls + Calls(ctx, rest, firstToken, duplex) == all && Duplex(ctx, rest, firstToken, duplex) == last
        decreases |line| - str, if inToken then 1 else 0
      {
        if !inToken {
          var stop;
          stop, inToken, firstToken, rest := Search(line, str, firstToken, rest);
          if stop {
            return;
          }
          tokenStart, str := str, str + 1;
        } else if Delimiter(line[str]) {
          var ignoreRest;
          ignoreRest, rest := EndToken(line, tokenStart, str, firstToken, rest);
          if ignoreRest {
            return;
          }
          firstToken, inToken := false, false;
        } else {
          str := str + 1;
        }
      }
      if inToken {
        var ignoreRest;
        ignoreRest, rest := EndToken(line, tokenStart, str, firstToken, rest);
      }
    }
  }
}
