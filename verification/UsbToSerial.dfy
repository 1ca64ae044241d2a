/**
 The USB to serial adapter: a main loop and a receive interrupt that share two rings. Every run is a sequence of
 steps of the one or the other, in any order.
 */
module UsbToSerial {
  import opened Words
  import R = RingBuff

  /** Where the main loop is; a byte between the ring and where it goes is held. */
  datatype Place =
    | Begin
    | Filling(left: nat)
    | TestUsb | GetUsb | SendUsb(held: bv8)
    | TestUsart | GetUsart | SendUsart(held: bv8)

  /**
   A step of the interrupt, which has received a byte, or one of the main loop, with the number of bytes the
   host has sent and the next of them, should the step ask for it.
   */
  datatype Event = Isr(received: bv8, configured: bool) | Main(available: byte, next: bv8)

  /** A byte that has left the ring to the host, sent or dropped. */
  datatype Gone = Gone(value: bv8, sent: bool)

  /** The rings, and what has gone where so far. */
  datatype Sys = Sys(
    place: Place, toUsart: seq<bv8>, toUsb: seq<bv8>,
    fromHost: seq<bv8>, usartSent: seq<bv8>, usartReceived: seq<bv8>, left: seq<Gone>)

  const START := Sys(Begin, [], [], [], [], [], [])

  function Held(p: Place): (r: seq<bv8>) {
    if p.SendUsart? then [p.held] else []
  }

  function Values(gs: seq<Gone>): (r: seq<bv8>)
    ensures |r| == |gs|
  {
    seq(|gs|, i requires 0 <= i < |gs| => gs[i].value)
  }

  /**
   The rings fit, the unchecked reads are never at an empty ring, nothing from the host is lost or reordered,
   and what has left the other ring and what is in it are the bytes received, in order.
   */
  predicate Inv(s: Sys, capacity: nat) {
    && capacity > 0 && |s.toUsart| <= capacity && |s.toUsb| <= capacity
    && (s.place == GetUsb ==> s.toUsb != [])
    && (s.place == GetUsart ==> s.toUsart != [])
    && s.usartSent + Held(s.place) + s.toUsart == s.fromHost
    && Values(s.left) + s.toUsb == s.usartReceived
  }

  function MainStep(s: Sys, e: Event, capacity: nat): (r: Sys)
    requires e.Main? && Inv(s, capacity)
  {
    match s.place
    case Begin => s.(place := Filling(e.available))
    case Filling(n) =>
      if n == 0 || |s.toUsart| == capacity then s.(place := TestUsb)
      else s.(place := Filling(n - 1), toUsart := R.DropOldest(s.toUsart, e.next, capacity),
              fromHost := s.fromHost + [e.next])
    case TestUsb => s.(place := if s.toUsb != [] then GetUsb else TestUsart)
    case GetUsb => s.(place := SendUsb(s.toUsb[0]), toUsb := s.toUsb[1..], left := s.left + [Gone(s.toUsb[0], true)])
    case SendUsb(_) => s.(place := TestUsb)
    case TestUsart => s.(place := if s.toUsart != [] then GetUsart else Begin)
    case GetUsart => s.(place := SendUsart(s.toUsart[0]), toUsart := s.toUsart[1..])
    case SendUsart(b) => s.(place := TestUsart, usartSent := s.usartSent + [b])
  }

  /** A full ring loses its oldest byte. */
  function IsrStep(s: Sys, e: Event, capacity: nat): (r: Sys)
    requires e.Isr? && Inv(s, capacity)
  {
    if !e.configured then s
    else s.(toUsb := R.DropOldest(s.toUsb, e.received, capacity), usartReceived := s.usartReceived + [e.received],
            left := s.left + if |s.toUsb| == capacity then [Gone(s.toUsb[0], false)] else [])
  }

  function Step(s: Sys, e: Event, capacity: nat): (r: Sys)
    requires Inv(s, capacity)
  {
    if e.Isr? then IsrStep(s, e, capacity) else MainStep(s, e, capacity)
  }

  lemma ValuesNext(gs: seq<Gone>, g: Gone)
    ensures Values(gs + [g]) == Values(gs) + [g.value]
  {
  }

  lemma TakeFirst(x: seq<bv8>, q: seq<bv8>)
    requires q != []
    ensures x + [q[0]] + q[1..] == x + q
  {
  }

  lemma IsrKeeps(s: Sys, e: Event, capacity: nat)
    requires e.Isr? && Inv(s, capacity)
    ensures Inv(IsrStep(s, e, capacity), capacity)
  {
    if e.configured {
      if |s.toUsb| == capacity {
        ValuesNext(s.left, Gone(s.toUsb[0], false));
        TakeFirst(Values(s.left), s.toUsb);
        Concat(Values(s.left) + [s.toUsb[0]], s.toUsb[1..], [e.received]);
      } else {
        Concat(Values(s.left), s.toUsb, [e.received]);
        assert s.left + [] == s.left;
      }
    }
  }

  lemma MainKeeps(s: Sys, e: Event, capacity: nat)
    requires e.Main? && Inv(s, capacity)
    ensures Inv(MainStep(s, e, capacity), capacity)
  {
    assert forall x: seq<bv8> :: x + [] == x;
    match s.place
    case Filling(n) =>
      Concat(s.usartSent, s.toUsart, [e.next]);
    case GetUsb =>
      ValuesNext(s.left, Gone(s.toUsb[0], true));
      TakeFirst(Values(s.left), s.toUsb);
    case GetUsart =>
      TakeFirst(s.usartSent, s.toUsart);
    case _ =>
  }

  lemma StepKeeps(s: Sys, e: Event, capacity: nat)
    requires Inv(s, capacity)
    ensures Inv(Step(s, e, capacity), capacity)
  {
    if e.Isr? {
      IsrKeeps(s, e, capacity);
    } else {
      MainKeeps(s, e, capacity);
    }
  }

  function Run(s: Sys, es: seq<Event>, capacity: nat): (r: Sys)
    requires Inv(s, capacity)
    ensures Inv(r, capacity)
    decreases |es|
  {
    if es == [] then s
    else
      StepKeeps(s, es[0], capacity);
      Run(Step(s, es[0], capacity), es[1..], capacity)
  }

  // ----- towards the host

  function SentValues(gs: seq<Gone>, sent: bool): (r: seq<bv8>) {
    if gs == [] then []
    else SentValues(gs[..|gs| - 1], sent) + if gs[|gs| - 1].sent == sent then [gs[|gs| - 1].value] else []
  }

  /** The bytes handed to the host, and the one on its way. */
  function ToHost(s: Sys): (r: seq<bv8>) {
    SentValues(s.left, true)
  }

  function Dropped(s: Sys): (r: seq<bv8>) {
    SentValues(s.left, false)
  }

  /** How a step changes what has gone to the host and what was dropped. */
  lemma StepDrops(s: Sys, e: Event, capacity: nat)
    requires Inv(s, capacity)
    ensures var r := Step(s, e, capacity);
            && Dropped(r) == Dropped(s) + (if e.Isr? && e.configured && |s.toUsb| == capacity then [s.toUsb[0]] else [])
            && ToHost(r) == ToHost(s) + (if e.Main? && s.place == GetUsb then [s.toUsb[0]] else [])
            && (r.place.SendUsb? && !s.place.SendUsb? ==> ToHost(r) == ToHost(s) + [r.place.held])
  {
    var r := Step(s, e, capacity);
    if r.left != s.left {
      assert r.left[..|r.left| - 1] == s.left;
    }
  }

  /** The number of interrupts that found the ring full. */
  function FullInterrupts(s: Sys, es: seq<Event>, capacity: nat): (n: nat)
    requires Inv(s, capacity)
    decreases |es|
  {
    if es == [] then 0
    else
      StepKeeps(s, es[0], capacity);
      (if es[0].Isr? && es[0].configured && |s.toUsb| == capacity then 1 else 0)
      + FullInterrupts(Step(s, es[0], capacity), es[1..], capacity)
  }

  /** Bytes are dropped only by interrupts that find the ring full, one each. */
  lemma {:induction false} DropsCounted(s: Sys, es: seq<Event>, capacity: nat)
    requires Inv(s, capacity)
    ensures |Dropped(Run(s, es, capacity))| == |Dropped(s)| + FullInterrupts(s, es, capacity)
    decreases |es|
  {
    if es != [] {
      StepKeeps(s, es[0], capacity);
      StepDrops(s, es[0], capacity);
      DropsCounted(Step(s, es[0], capacity), es[1..], capacity);
    }
  }

  /** x is y with some elements left out. */
  predicate Subsequence(x: seq<bv8>, y: seq<bv8>) {
    if x == [] then true
    else if y == [] then false
    else if x[|x| - 1] == y[|y| - 1] then Subsequence(x[..|x| - 1], y[..|y| - 1]) || Subsequence(x, y[..|y| - 1])
    else Subsequence(x, y[..|y| - 1])
  }

  lemma {:induction false} SubsequenceMore(x: seq<bv8>, y: seq<bv8>, b: bv8)
    requires Subsequence(x, y)
    ensures Subsequence(x, y + [b]) && Subsequence(x + [b], y + [b])
  {
    assert (y + [b])[..|y|] == y && (x + [b])[..|x|] == x;
  }

  lemma {:induction false} SentIsSubsequence(gs: seq<Gone>, sent: bool)
    ensures Subsequence(SentValues(gs, sent), Values(gs))
  {
    if gs != [] {
      var n := |gs| - 1;
      SentIsSubsequence(gs[..n], sent);
      assert gs == gs[..n] + [gs[n]];
      ValuesNext(gs[..n], gs[n]);
      SubsequenceMore(SentValues(gs[..n], sent), Values(gs[..n]), gs[n].value);
      assert SentValues(gs[..n], sent) + [] == SentValues(gs[..n], sent);
    }
  }

  lemma {:induction false} NothingDropped(gs: seq<Gone>)
    requires SentValues(gs, false) == []
    ensures SentValues(gs, true) == Values(gs)
  {
    if gs != [] {
      var n := |gs| - 1;
      NothingDropped(gs[..n]);
      assert gs == gs[..n] + [gs[n]];
      ValuesNext(gs[..n], gs[n]);
    }
  }

  /**
   Whatever the interleaving, from the start on. The unchecked reads never meet an empty ring. From the host
   to the serial line nothing is lost. The other way, the ring holds the latest bytes received; those before
   them were handed to the host in order or dropped, each dropped by an interrupt that found the ring full; and
   without such an interrupt nothing is lost either.
   */
  lemma AdapterRun(es: seq<Event>, capacity: nat)
    requires capacity > 0
    ensures var s := Run(START, es, capacity);
            && (s.place == GetUsb ==> s.toUsb != []) && (s.place == GetUsart ==> s.toUsart != [])
            && s.usartSent + Held(s.place) + s.toUsart == s.fromHost
            && Values(s.left) + s.toUsb == s.usartReceived
            && Subsequence(ToHost(s), Values(s.left))
            && |Dropped(s)| == FullInterrupts(START, es, capacity)
            && (FullInterrupts(START, es, capacity) == 0 ==> ToHost(s) + s.toUsb == s.usartReceived)
  {
    var s := Run(START, es, capacity);
    SentIsSubsequence(s.left, true);
    DropsCounted(START, es, capacity);
    if FullInterrupts(START, es, capacity) == 0 {
      NothingDropped(s.left);
    }
  }

  // ----- the program

  class Adapter {
    const usbToUsart: R.RingBuff
    const usartToUsb: R.RingBuff
    var place: Place
    ghost var fromHost: seq<bv8>
    ghost var usartSent: seq<bv8>
    ghost var usartReceived: seq<bv8>
    ghost var left: seq<Gone>

    ghost function Now(): (s: Sys)
      reads this, usbToUsart, usartToUsb
    {
      Sys(place, usbToUsart.contents, usartToUsb.contents, fromHost, usartSent, usartReceived, left)
    }

    ghost predicate Valid()
      reads this, usbToUsart, usbToUsart.buffer, usartToUsb, usartToUsb.buffer
    {
      && usbToUsart != usartToUsb && usbToUsart.buffer != usartToUsb.buffer
      && usbToUsart.Valid() && usartToUsb.Valid()
      && usbToUsart.buffer.Length == usartToUsb.buffer.Length
      && Inv(Now(), usbToUsart.buffer.Length)
    }

    ghost function Capacity(): (n: nat)
    {
      usbToUsart.buffer.Length
    }

    constructor (length: nat)
      requires length > 0
      ensures Valid() && Now() == START && Capacity() == length
      ensures fresh(usbToUsart) && fresh(usbToUsart.buffer) && fresh(usartToUsb) && fresh(usartToUsb.buffer)
    {
      usbToUsart := new R.RingBuff(length);
      usartToUsb := new R.RingBuff(length);
      place, fromHost, usartSent, usartReceived, left := Begin, [], [], [], [];
      new;
      usbToUsart.Initialize();
      usartToUsb.Initialize();
    }

    /** The receive interrupt. */
    method UsartRx(received: bv8, configured: bool)
      requires Valid()
      modifies this, usartToUsb, usartToUsb.buffer
      ensures Valid() && Now() == Step(old(Now()), Isr(received, configured), Capacity())
    {
      StepKeeps(Now(), Isr(received, configured), Capacity());
      if configured {
        left := left + if usartToUsb.elements == Capacity() then [Gone(usartToUsb.contents[0], false)] else [];
        usartReceived := usartReceived + [received];
        usartToUsb.StoreElement(received);
      }
    }

    /** Bytes from the host into the ring, while it has room. */
    method AdvanceFilling(available: byte, next: bv8)
      requires Valid() && (place.Begin? || place.Filling?)
      modifies this, usbToUsart, usbToUsart.buffer
      ensures Valid() && Now() == Step(old(Now()), Main(available, next), Capacity())
    {
      StepKeeps(Now(), Main(available, next), Capacity());
      match place {
        case Begin =>
          place := Filling(available);
        case Filling(n) =>
          if n == 0 || usbToUsart.buffer.Length - usbToUsart.elements == 0 {
            place := TestUsb;
          } else {
            usbToUsart.StoreElement(next);
            fromHost := fromHost + [next];
            place := Filling(n - 1);
          }
      }
    }

    /** Bytes from the serial line to the host. */
    method AdvanceUsb(ghost available: byte, ghost next: bv8) returns (toHost: seq<bv8>)
      requires Valid() && (place.TestUsb? || place.GetUsb? || place.SendUsb?)
      modifies this, usartToUsb
      ensures Valid() && Now() == Step(old(Now()), Main(available, next), Capacity())
      ensures toHost == if old(place).SendUsb? then [old(place).held] else []
    {
      StepKeeps(Now(), Main(available, next), Capacity());
      toHost := [];
      match place {
        case TestUsb =>
          place := if usartToUsb.elements != 0 then GetUsb else TestUsart;
        case GetUsb =>
          var b := usartToUsb.GetElement();
          left := left + [Gone(b, true)];
          place := SendUsb(b);
        case SendUsb(b) =>
          toHost := [b];
          place := TestUsb;
      }
    }

    /** Bytes from the host to the serial line. */
    method AdvanceUsart(ghost available: byte, ghost next: bv8) returns (toUsart: seq<bv8>)
      requires Valid() && (place.TestUsart? || place.GetUsart? || place.SendUsart?)
      modifies this, usbToUsart
      ensures Valid() && Now() == Step(old(Now()), Main(available, next), Capacity())
      ensures toUsart == if old(place).SendUsart? then [old(place).held] else []
    {
      StepKeeps(Now(), Main(available, next), Capacity());
      toUsart := [];
      match place {
        case TestUsart =>
          place := if usbToUsart.elements != 0 then GetUsart else Begin;
        case GetUsart =>
          var b := usbToUsart.GetElement();
          place := SendUsart(b);
        case SendUsart(b) =>
          toUsart := [b];
          usartSent := usartSent + [b];
          place := TestUsart;
      }
    }

    /** One step of the main loop. */
    method Advance(available: byte, next: bv8) returns (toHost: seq<bv8>, toUsart: seq<bv8>)
      requires Valid()
      modifies this, usbToUsart, usbToUsart.buffer, usartToUsb
      ensures Valid() && Now() == Step(old(Now()), Main(available, next), Capacity())
      ensures toHost == if old(place).SendUsb? then [old(place).held] else []
      ensures toUsart == if old(place).SendUsart? then [old(place).held] else []
    {
      toHost, toUsart := [], [];
      if place.Begin? || place.Filling? {
        AdvanceFilling(available, next);
      } else if place.TestUsb? || place.GetUsb? || place.SendUsb? {
        toHost := AdvanceUsb(available, next);
      } else {
        toUsart := AdvanceUsart(available, next);
      }
    }
  }
}
