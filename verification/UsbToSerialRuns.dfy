/**
 The adapter seen from outside: the bytes that go in and come out in a run, whole laps of the main loop, and how
 long a byte can stay, with interrupts at any point.
 */
module UsbToSerialRuns {
  import opened Words
  import opened UsbToSerial

  // ----- what goes in and what comes out

  /** The number of steps of the main loop. */
  function Mains(es: seq<Event>): (n: nat) {
    if es == [] then 0 else (if es[0].Main? then 1 else 0) + Mains(es[1..])
  }

  function Isrs(es: seq<Event>): (n: nat) {
    if es == [] then 0 else (if es[0].Isr? then 1 else 0) + Isrs(es[1..])
  }

  /** What a step receives from the serial line, if the device is configured. */
  function HeardNow(e: Event): (r: seq<bv8>) {
    if e.Isr? && e.configured then [e.received] else []
  }

  function Heard(es: seq<Event>): (r: seq<bv8>) {
    if es == [] then [] else HeardNow(es[0]) + Heard(es[1..])
  }

  function HeldForHost(p: Place): (r: seq<bv8>) {
    if p.SendUsb? then [p.held] else []
  }

  /** What a step hands to the host, and to the serial line. */
  function ToHostNow(s: Sys, e: Event): (r: seq<bv8>) {
    if e.Main? then HeldForHost(s.place) else []
  }

  function ToSerialNow(s: Sys, e: Event): (r: seq<bv8>) {
    if e.Main? then Held(s.place) else []
  }

  /** What a step takes from the host. */
  function FromHostNow(s: Sys, e: Event, capacity: nat): (r: seq<bv8>) {
    if e.Main? && s.place.Filling? && s.place.left > 0 && |s.toUsart| < capacity then [e.next] else []
  }

  function HostBytes(s: Sys, es: seq<Event>, capacity: nat): (r: seq<bv8>)
    requires Inv(s, capacity)
    decreases |es|
  {
    if es == [] then []
    else
      StepKeeps(s, es[0], capacity);
      ToHostNow(s, es[0]) + HostBytes(Step(s, es[0], capacity), es[1..], capacity)
  }

  function SerialBytes(s: Sys, es: seq<Event>, capacity: nat): (r: seq<bv8>)
    requires Inv(s, capacity)
    decreases |es|
  {
    if es == [] then []
    else
      StepKeeps(s, es[0], capacity);
      ToSerialNow(s, es[0]) + SerialBytes(Step(s, es[0], capacity), es[1..], capacity)
  }

  function TakenBytes(s: Sys, es: seq<Event>, capacity: nat): (r: seq<bv8>)
    requires Inv(s, capacity)
    decreases |es|
  {
    if es == [] then []
    else
      StepKeeps(s, es[0], capacity);
      FromHostNow(s, es[0], capacity) + TakenBytes(Step(s, es[0], capacity), es[1..], capacity)
  }

  /** The byte on its way to the host is the last that has left the ring to it. */
  predicate HeldLast(s: Sys) {
    s.place.SendUsb? ==> ToHost(s) != [] && ToHost(s)[|ToHost(s)| - 1] == s.place.held
  }

  /** What has been handed to the host. */
  function Given(s: Sys): (r: seq<bv8>) {
    if s.place.SendUsb? && ToHost(s) != [] then ToHost(s)[..|ToHost(s)| - 1] else ToHost(s)
  }

  /** One step, in terms of what goes to the host. */
  lemma GivenStep(s: Sys, e: Event, capacity: nat)
    requires Inv(s, capacity) && HeldLast(s)
    ensures HeldLast(Step(s, e, capacity)) && Given(Step(s, e, capacity)) == Given(s) + ToHostNow(s, e)
  {
    StepDrops(s, e, capacity);
    var sent := ToHost(s);
    if e.Main? && s.place.SendUsb? {
      assert sent == sent[..|sent| - 1] + [sent[|sent| - 1]];
    }
  }

  lemma {:induction false} GivenRun(s: Sys, es: seq<Event>, capacity: nat)
    requires Inv(s, capacity) && HeldLast(s)
    ensures HeldLast(Run(s, es, capacity))
    ensures Given(Run(s, es, capacity)) == Given(s) + HostBytes(s, es, capacity)
    decreases |es|
  {
    if es == [] {
      assert Given(s) + [] == Given(s);
    } else {
      var next := Step(s, es[0], capacity);
      StepKeeps(s, es[0], capacity);
      GivenStep(s, es[0], capacity);
      GivenRun(next, es[1..], capacity);
      Concat(Given(s), ToHostNow(s, es[0]), HostBytes(next, es[1..], capacity));
    }
  }

  /** One step, in terms of what else goes in and comes out. */
  lemma TraceStep(s: Sys, e: Event, capacity: nat)
    requires Inv(s, capacity)
    ensures var r := Step(s, e, capacity);
            && r.usartSent == s.usartSent + ToSerialNow(s, e)
            && r.usartReceived == s.usartReceived + HeardNow(e)
            && r.fromHost == s.fromHost + FromHostNow(s, e, capacity)
  {
    assert forall x: seq<bv8> :: x + [] == x;
  }

  lemma {:induction false} TraceRun(s: Sys, es: seq<Event>, capacity: nat)
    requires Inv(s, capacity)
    ensures Run(s, es, capacity).usartSent == s.usartSent + SerialBytes(s, es, capacity)
    ensures Run(s, es, capacity).usartReceived == s.usartReceived + Heard(es)
    ensures Run(s, es, capacity).fromHost == s.fromHost + TakenBytes(s, es, capacity)
    decreases |es|
  {
    if es == [] {
      assert forall x: seq<bv8> :: x + [] == x;
    } else {
      var next := Step(s, es[0], capacity);
      StepKeeps(s, es[0], capacity);
      TraceStep(s, es[0], capacity);
      TraceRun(next, es[1..], capacity);
      Concat(s.usartSent, ToSerialNow(s, es[0]), SerialBytes(next, es[1..], capacity));
      Concat(s.usartReceived, HeardNow(es[0]), Heard(es[1..]));
      Concat(s.fromHost, FromHostNow(s, es[0], capacity), TakenBytes(next, es[1..], capacity));
    }
  }

  lemma {:induction false} SentAndDropped(gs: seq<Gone>)
    ensures |SentValues(gs, true)| + |SentValues(gs, false)| == |gs|
  {
    if gs != [] {
      SentAndDropped(gs[..|gs| - 1]);
    }
  }

  /** The host has what has left the ring to it, but for the byte on its way. */
  lemma HostHas(es: seq<Event>, capacity: nat)
    requires capacity > 0
    ensures var r := Run(START, es, capacity);
            ToHost(r) == HostBytes(START, es, capacity) + HeldForHost(r.place)
  {
    var r := Run(START, es, capacity);
    GivenRun(START, es, capacity);
    assert Given(START) == [];
    var sent := ToHost(r);
    if r.place.SendUsb? {
      assert sent == sent[..|sent| - 1] + [sent[|sent| - 1]];
    }
  }

  /**
   In and out, from the start on and whatever the interleaving. What the host sent comes out of the serial line
   in order, nothing lost. What the serial line sent is in the ring or has left it; what has left it and was not
   dropped by an interrupt that found the ring full is handed to the host, in order.
   */
  lemma InAndOut(es: seq<Event>, capacity: nat)
    requires capacity > 0
    ensures var r := Run(START, es, capacity);
            var toHost := HostBytes(START, es, capacity) + HeldForHost(r.place);
            && SerialBytes(START, es, capacity) + Held(r.place) + r.toUsart == TakenBytes(START, es, capacity)
            && |r.toUsb| <= |Heard(es)| && r.toUsb == Heard(es)[|Heard(es)| - |r.toUsb|..]
            && Subsequence(toHost, Heard(es)[..|Heard(es)| - |r.toUsb|])
            && |toHost| + |r.toUsb| + FullInterrupts(START, es, capacity) == |Heard(es)|
            && (FullInterrupts(START, es, capacity) == 0 ==> toHost + r.toUsb == Heard(es))
  {
    var r := Run(START, es, capacity);
    TraceRun(START, es, capacity);
    HostHas(es, capacity);
    AdapterRun(es, capacity);
    SentAndDropped(r.left);
    assert [] + Heard(es) == Heard(es) && [] + TakenBytes(START, es, capacity) == TakenBytes(START, es, capacity);
    assert [] + SerialBytes(START, es, capacity) == SerialBytes(START, es, capacity);
    assert Heard(es)[..|Heard(es)| - |r.toUsb|] == Values(r.left);
  }
  // ----- laps of the main loop, undisturbed

  predicate AllMain(es: seq<Event>) {
    forall i :: 0 <= i < |es| ==> es[i].Main?
  }

  /** One behind the other. */
  lemma {:induction false} RunSplit(s: Sys, x: seq<Event>, y: seq<Event>, capacity: nat)
    requires Inv(s, capacity)
    ensures var m := Run(s, x, capacity);
            && Run(s, x + y, capacity) == Run(m, y, capacity)
            && HostBytes(s, x + y, capacity) == HostBytes(s, x, capacity) + HostBytes(m, y, capacity)
            && SerialBytes(s, x + y, capacity) == SerialBytes(s, x, capacity) + SerialBytes(m, y, capacity)
            && TakenBytes(s, x + y, capacity) == TakenBytes(s, x, capacity) + TakenBytes(m, y, capacity)
    decreases |x|
  {
    if x == [] {
      assert x + y == y;
    } else {
      var next := Step(s, x[0], capacity);
      StepKeeps(s, x[0], capacity);
      assert (x + y)[0] == x[0] && (x + y)[1..] == x[1..] + y;
      RunSplit(next, x[1..], y, capacity);
      var m := Run(next, x[1..], capacity);
      Concat(ToHostNow(s, x[0]), HostBytes(next, x[1..], capacity), HostBytes(m, y, capacity));
      Concat(ToSerialNow(s, x[0]), SerialBytes(next, x[1..], capacity), SerialBytes(m, y, capacity));
      Concat(FromHostNow(s, x[0], capacity), TakenBytes(next, x[1..], capacity), TakenBytes(m, y, capacity));
    }
  }

  lemma RunOne(s: Sys, e: Event, capacity: nat)
    requires Inv(s, capacity)
    ensures Run(s, [e], capacity) == Step(s, e, capacity)
    ensures HostBytes(s, [e], capacity) == ToHostNow(s, e) && SerialBytes(s, [e], capacity) == ToSerialNow(s, e)
    ensures TakenBytes(s, [e], capacity) == FromHostNow(s, e, capacity)
  {
    StepKeeps(s, e, capacity);
    assert [e][1..] == [];
  }

  /** A step and then the rest. */
  lemma RunFirst(s: Sys, es: seq<Event>, capacity: nat)
    requires Inv(s, capacity) && es != []
    ensures var next := Step(s, es[0], capacity);
            && Inv(next, capacity) && Run(s, es, capacity) == Run(next, es[1..], capacity)
            && HostBytes(s, es, capacity) == ToHostNow(s, es[0]) + HostBytes(next, es[1..], capacity)
            && SerialBytes(s, es, capacity) == ToSerialNow(s, es[0]) + SerialBytes(next, es[1..], capacity)
            && TakenBytes(s, es, capacity) == FromHostNow(s, es[0], capacity) + TakenBytes(next, es[1..], capacity)
  {
    StepKeeps(s, es[0], capacity);
  }

  /** Three steps hand over one byte to the host. */
  lemma UsbTurn(s: Sys, es: seq<Event>, capacity: nat)
    requires Inv(s, capacity) && s.place == TestUsb && s.toUsb != [] && |es| >= 3 && AllMain(es)
    ensures var m := s.(toUsb := s.toUsb[1..], left := s.left + [Gone(s.toUsb[0], true)]);
            && Inv(m, capacity) && Run(s, es, capacity) == Run(m, es[3..], capacity)
            && HostBytes(s, es, capacity) == [s.toUsb[0]] + HostBytes(m, es[3..], capacity)
            && SerialBytes(s, es, capacity) == SerialBytes(m, es[3..], capacity)
            && TakenBytes(s, es, capacity) == TakenBytes(m, es[3..], capacity)
  {
    var s1 := Step(s, es[0], capacity);
    RunFirst(s, es, capacity);
    RunFirst(s1, es[1..], capacity);
    RunFirst(Step(s1, es[1], capacity), es[1..][1..], capacity);
    assert es[1..][1..][1..] == es[3..];
  }

  /** The ring to the host is emptied: three steps a byte and one more hand over exactly what was in it, in order. */
  lemma {:induction false} UsbLap(s: Sys, es: seq<Event>, capacity: nat)
    requires Inv(s, capacity) && s.place == TestUsb && |es| == 3 * |s.toUsb| + 1 && AllMain(es)
    ensures var r := Run(s, es, capacity);
            && r.place == TestUsart && r.toUsb == [] && r.toUsart == s.toUsart
            && HostBytes(s, es, capacity) == s.toUsb
            && SerialBytes(s, es, capacity) == [] && TakenBytes(s, es, capacity) == []
    decreases |es|
  {
    if s.toUsb == [] {
      assert es == [es[0]];
      RunOne(s, es[0], capacity);
    } else {
      var m := s.(toUsb := s.toUsb[1..], left := s.left + [Gone(s.toUsb[0], true)]);
      UsbTurn(s, es, capacity);
      assert |es[3..]| == 3 * |m.toUsb| + 1;
      UsbLap(m, es[3..], capacity);
    }
  }

  lemma UsartTurn(s: Sys, es: seq<Event>, capacity: nat)
    requires Inv(s, capacity) && s.place == TestUsart && s.toUsart != [] && |es| >= 3 && AllMain(es)
    ensures var m := s.(toUsart := s.toUsart[1..], usartSent := s.usartSent + [s.toUsart[0]]);
            && Inv(m, capacity) && Run(s, es, capacity) == Run(m, es[3..], capacity)
            && SerialBytes(s, es, capacity) == [s.toUsart[0]] + SerialBytes(m, es[3..], capacity)
            && HostBytes(s, es, capacity) == HostBytes(m, es[3..], capacity)
            && TakenBytes(s, es, capacity) == TakenBytes(m, es[3..], capacity)
  {
    var s1 := Step(s, es[0], capacity);
    RunFirst(s, es, capacity);
    RunFirst(s1, es[1..], capacity);
    RunFirst(Step(s1, es[1], capacity), es[1..][1..], capacity);
    assert es[1..][1..][1..] == es[3..];
  }

  /** And so is the ring to the serial line. */
  lemma {:induction false} UsartLap(s: Sys, es: seq<Event>, capacity: nat)
    requires Inv(s, capacity) && s.place == TestUsart && |es| == 3 * |s.toUsart| + 1 && AllMain(es)
    ensures var r := Run(s, es, capacity);
            && r.place == Begin && r.toUsart == [] && r.toUsb == s.toUsb
            && SerialBytes(s, es, capacity) == s.toUsart
            && HostBytes(s, es, capacity) == [] && TakenBytes(s, es, capacity) == []
    decreases |es|
  {
    if s.toUsart == [] {
      assert es == [es[0]];
      RunOne(s, es[0], capacity);
    } else {
      var m := s.(toUsart := s.toUsart[1..], usartSent := s.usartSent + [s.toUsart[0]]);
      UsartTurn(s, es, capacity);
      assert |es[3..]| == 3 * |m.toUsart| + 1;
      UsartLap(m, es[3..], capacity);
    }
  }

  function Least(x: nat, y: nat): (r: nat) {
    if x <= y then x else y
  }

  function Nexts(es: seq<Event>): (r: seq<bv8>)
    requires AllMain(es)
  {
    seq(|es|, i requires 0 <= i < |es| => es[i].next)
  }

  lemma NextsFirst(es: seq<Event>, rest: seq<Event>)
    requires AllMain(es) && es != [] && rest == es[1..]
    ensures Nexts(es) == [es[0].next] + Nexts(rest)
  {
  }

  /** As many of the bytes the host has sent as the ring has room for are taken, in order. */
  lemma {:induction false} FillLap(s: Sys, es: seq<Event>, capacity: nat)
    requires Inv(s, capacity) && s.place.Filling? && AllMain(es)
    requires |es| == Least(s.place.left, capacity - |s.toUsart|) + 1
    ensures var r := Run(s, es, capacity);
            && r.place == TestUsb && r.toUsb == s.toUsb && r.toUsart == s.toUsart + Nexts(es[..|es| - 1])
            && TakenBytes(s, es, capacity) == Nexts(es[..|es| - 1])
            && HostBytes(s, es, capacity) == [] && SerialBytes(s, es, capacity) == []
    decreases |es|
  {
    RunFirst(s, es, capacity);
    if |es| == 1 {
      assert es[1..] == [] && s.toUsart + [] == s.toUsart;
    } else {
      FillLap(Step(s, es[0], capacity), es[1..], capacity);
      NextsFirst(es[..|es| - 1], es[1..][..|es| - 2]);
      Concat(s.toUsart, [es[0].next], Nexts(es[1..][..|es| - 2]));
    }
  }

  /** The number of host bytes that a lap takes: those that have come and for which there is room. */
  function Takes(s: Sys, available: byte, capacity: nat): (n: nat)
    requires Inv(s, capacity)
  {
    Least(available, capacity - |s.toUsart|)
  }

  function LapLength(s: Sys, available: byte, capacity: nat): (n: nat)
    requires Inv(s, capacity)
  {
    1 + (Takes(s, available, capacity) + 1) + (3 * |s.toUsb| + 1)
      + (3 * (|s.toUsart| + Takes(s, available, capacity)) + 1)
  }

  lemma Parts(es: seq<Event>, k: nat)
    requires k + 2 <= |es|
    ensures es[1..] == es[1..k + 2] + es[k + 2..] && es[1..k + 2][..k] == es[1..1 + k]
  {
  }

  lemma Halves(es: seq<Event>, k: nat, t: nat)
    requires 0 < t <= k <= |es|
    ensures es == es[..k] + es[k..] && es[..k][0] == es[0] && es[..k][1..t] == es[1..t]
  {
  }

  /** The first half of a lap: host bytes taken, and the ring to the host emptied. */
  lemma HalfLap(s: Sys, es: seq<Event>, capacity: nat)
    requires Inv(s, capacity) && s.place == Begin && es != [] && AllMain(es)
    requires |es| == 1 + (Takes(s, es[0].available, capacity) + 1) + (3 * |s.toUsb| + 1)
    ensures var r, taken := Run(s, es, capacity), Nexts(es[1..1 + Takes(s, es[0].available, capacity)]);
            && r.place == TestUsart && r.toUsb == [] && r.toUsart == s.toUsart + taken
            && TakenBytes(s, es, capacity) == taken && HostBytes(s, es, capacity) == s.toUsb
            && SerialBytes(s, es, capacity) == []
  {
    var k := Takes(s, es[0].available, capacity);
    var fill, usb := es[1..k + 2], es[k + 2..];
    Parts(es, k);
    RunFirst(s, es, capacity);
    var f := Step(s, es[0], capacity);
    RunSplit(f, fill, usb, capacity);
    FillLap(f, fill, capacity);
    var m := Run(f, fill, capacity);
    assert |usb| == 3 * |m.toUsb| + 1;
    UsbLap(m, usb, capacity);
  }

  /**
   A whole lap from the head of the main loop: it takes as many host bytes as have come and find room, hands over
   exactly what was in the ring to the host, sends exactly what was in the ring to the serial line and what it has
   just taken, and comes back with both rings empty.
   */
  lemma Lap(s: Sys, es: seq<Event>, capacity: nat)
    requires Inv(s, capacity) && s.place == Begin && es != [] && AllMain(es)
    requires |es| == LapLength(s, es[0].available, capacity)
    ensures var r, taken := Run(s, es, capacity), Nexts(es[1..1 + Takes(s, es[0].available, capacity)]);
            && r.place == Begin && r.toUsb == [] && r.toUsart == []
            && TakenBytes(s, es, capacity) == taken
            && HostBytes(s, es, capacity) == s.toUsb && SerialBytes(s, es, capacity) == s.toUsart + taken
  {
    var k := 1 + (Takes(s, es[0].available, capacity) + 1) + (3 * |s.toUsb| + 1);
    Halves(es, k, 1 + Takes(s, es[0].available, capacity));
    RunSplit(s, es[..k], es[k..], capacity);
    HalfLap(s, es[..k], capacity);
    var m := Run(s, es[..k], capacity);
    assert |es[k..]| == 3 * |m.toUsart| + 1;
    UsartLap(m, es[k..], capacity);
  }

  // ----- with interrupts at any point

  /** Steps of the main loop until the first k bytes of the ring to the host, and one on its way, are handed over. */
  function HostWait(s: Sys, k: nat, capacity: nat): (n: nat)
    requires Inv(s, capacity)
  {
    var room, a := capacity - |s.toUsart|, |s.toUsart|;
    if s.place.SendUsb? then 3 * k + 1
    else if k == 0 then 0
    else match s.place
      case TestUsb => 3 * k
      case GetUsb => 3 * k - 1
      case Filling(n) => Least(n, room) + 1 + 3 * k
      case Begin => room + 2 + 3 * k
      case TestUsart => 3 * a + capacity + 3 + 3 * k
      case GetUsart => 3 * a - 1 + capacity + 3 + 3 * k
      case SendUsart(_) => 3 * a + 1 + capacity + 3 + 3 * k
  }

  /** A step of the main loop brings that nearer. */
  lemma HostWaitStep(s: Sys, k: nat, e: Event, capacity: nat)
    requires Inv(s, capacity) && k <= |s.toUsb| && e.Main? && (k > 0 || s.place.SendUsb?)
    ensures var r, k' := Step(s, e, capacity), if s.place == GetUsb then k - 1 else k;
            && Inv(r, capacity) && k' <= |r.toUsb| && HostWait(r, k', capacity) + 1 <= HostWait(s, k, capacity)
            && HeldForHost(s.place) + s.toUsb[..k] == ToHostNow(s, e) + (HeldForHost(r.place) + r.toUsb[..k'])
  {
    StepKeeps(s, e, capacity);
  }

  /** An interrupt does not put it off; one that finds the ring full may drop one of these bytes. */
  lemma HostWaitIsr(s: Sys, k: nat, e: Event, capacity: nat)
    requires Inv(s, capacity) && k <= |s.toUsb| && e.Isr?
    ensures var r, full := Step(s, e, capacity), e.configured && |s.toUsb| == capacity;
            var k' := if full && k > 0 then k - 1 else k;
            && Inv(r, capacity) && k' <= |r.toUsb| && HostWait(r, k', capacity) <= HostWait(s, k, capacity)
            && r.place == s.place && (!full ==> r.toUsb[..k] == s.toUsb[..k])
  {
    StepKeeps(s, e, capacity);
  }

  /**
   With interrupts at any point: after that many steps of the main loop, of the byte on its way and the first k
   bytes of the ring no more are missing at the host than there were interrupts that found the ring full.
   */
  lemma {:induction false} HostServed(s: Sys, es: seq<Event>, k: nat, capacity: nat)
    requires Inv(s, capacity) && k <= |s.toUsb| && Mains(es) >= HostWait(s, k, capacity)
    ensures |HostBytes(s, es, capacity)| + FullInterrupts(s, es, capacity) >= |HeldForHost(s.place)| + k
    decreases |es|
  {
    if es != [] && (k > 0 || s.place.SendUsb?) {
      var r := Step(s, es[0], capacity);
      if es[0].Main? {
        HostWaitStep(s, k, es[0], capacity);
        HostServed(r, es[1..], if s.place == GetUsb then k - 1 else k, capacity);
      } else {
        HostWaitIsr(s, k, es[0], capacity);
        HostServed(r, es[1..], if es[0].configured && |s.toUsb| == capacity && k > 0 then k - 1 else k, capacity);
      }
    }
  }

  /** Without such interrupts they are the next bytes that the host gets. */
  lemma {:induction false} HostServedInOrder(s: Sys, es: seq<Event>, k: nat, capacity: nat)
    requires Inv(s, capacity) && k <= |s.toUsb| && Mains(es) >= HostWait(s, k, capacity)
    requires FullInterrupts(s, es, capacity) == 0
    ensures HeldForHost(s.place) + s.toUsb[..k] <= HostBytes(s, es, capacity)
    decreases |es|
  {
    if es != [] && (k > 0 || s.place.SendUsb?) {
      var r := Step(s, es[0], capacity);
      if es[0].Main? {
        HostWaitStep(s, k, es[0], capacity);
        HostServedInOrder(r, es[1..], if s.place == GetUsb then k - 1 else k, capacity);
      } else {
        HostWaitIsr(s, k, es[0], capacity);
        HostServedInOrder(r, es[1..], k, capacity);
      }
    }
  }

  /** However the main loop stands, everything in the ring is at the host, or dropped, after this many of its steps. */
  lemma HostLatency(s: Sys, es: seq<Event>, capacity: nat)
    requires Inv(s, capacity) && Mains(es) >= 4 * capacity + 4 + 3 * |s.toUsb|
    ensures |HostBytes(s, es, capacity)| + FullInterrupts(s, es, capacity) >= |HeldForHost(s.place)| + |s.toUsb|
    ensures FullInterrupts(s, es, capacity) == 0 ==> HeldForHost(s.place) + s.toUsb <= HostBytes(s, es, capacity)
  {
    assert s.toUsb[..|s.toUsb|] == s.toUsb;
    HostServed(s, es, |s.toUsb|, capacity);
    if FullInterrupts(s, es, capacity) == 0 {
      HostServedInOrder(s, es, |s.toUsb|, capacity);
    }
  }

  /** The same for the serial line: every interrupt still to come may give the main loop a byte more to hand over. */
  function SerialWait(s: Sys, k: nat, isrs: nat, capacity: nat): (n: nat)
    requires Inv(s, capacity)
  {
    var room, u := capacity - |s.toUsart|, 3 * (|s.toUsb| + isrs) + 1;
    if s.place.SendUsart? then 3 * k + 1
    else if k == 0 then 0
    else match s.place
      case TestUsart => 3 * k
      case GetUsart => 3 * k - 1
      case TestUsb => u + 3 * k
      case GetUsb => u - 1 + 3 * k
      case SendUsb(_) => u + 1 + 3 * k
      case Filling(n) => Least(n, room) + 1 + u + 3 * k
      case Begin => room + 2 + u + 3 * k
  }

  lemma SerialWaitStep(s: Sys, k: nat, isrs: nat, e: Event, capacity: nat)
    requires Inv(s, capacity) && k <= |s.toUsart| && e.Main? && (k > 0 || s.place.SendUsart?)
    ensures var r, k' := Step(s, e, capacity), if s.place == GetUsart then k - 1 else k;
            && Inv(r, capacity) && k' <= |r.toUsart|
            && SerialWait(r, k', isrs, capacity) + 1 <= SerialWait(s, k, isrs, capacity)
            && Held(s.place) + s.toUsart[..k] == ToSerialNow(s, e) + (Held(r.place) + r.toUsart[..k'])
  {
    StepKeeps(s, e, capacity);
  }

  lemma SerialWaitIsr(s: Sys, k: nat, isrs: nat, e: Event, capacity: nat)
    requires Inv(s, capacity) && k <= |s.toUsart| && e.Isr?
    ensures var r := Step(s, e, capacity);
            && Inv(r, capacity) && r.toUsart == s.toUsart && r.place == s.place
            && SerialWait(r, k, isrs, capacity) <= SerialWait(s, k, isrs + 1, capacity)
  {
    StepKeeps(s, e, capacity);
  }

  /** Nothing on its way to the serial line is ever lost, and so its first k bytes are the next ones sent. */
  lemma {:induction false} SerialServed(s: Sys, es: seq<Event>, k: nat, capacity: nat)
    requires Inv(s, capacity) && k <= |s.toUsart|
    requires Mains(es) >= SerialWait(s, k, Isrs(es), capacity)
    ensures Held(s.place) + s.toUsart[..k] <= SerialBytes(s, es, capacity)
    decreases |es|
  {
    if es != [] && (k > 0 || s.place.SendUsart?) {
      var r, isrs := Step(s, es[0], capacity), Isrs(es[1..]);
      if es[0].Main? {
        SerialWaitStep(s, k, isrs, es[0], capacity);
        SerialServed(r, es[1..], if s.place == GetUsart then k - 1 else k, capacity);
      } else {
        SerialWaitIsr(s, k, isrs, es[0], capacity);
        SerialServed(r, es[1..], k, capacity);
      }
    }
  }

  lemma SerialWaitBound(s: Sys, k: nat, isrs: nat, capacity: nat)
    requires Inv(s, capacity)
    ensures SerialWait(s, k, isrs, capacity) <= 4 * capacity + 4 + 3 * isrs + 3 * k
  {
  }

  /** However the main loop stands, everything in the ring to the serial line is sent after this many of its steps. */
  lemma SerialLatency(s: Sys, es: seq<Event>, capacity: nat)
    requires Inv(s, capacity)
    requires Mains(es) >= 4 * capacity + 4 + 3 * Isrs(es) + 3 * |s.toUsart|
    ensures Held(s.place) + s.toUsart <= SerialBytes(s, es, capacity)
  {
    assert s.toUsart[..|s.toUsart|] == s.toUsart;
    SerialWaitBound(s, |s.toUsart|, Isrs(es), capacity);
    SerialServed(s, es, |s.toUsart|, capacity);
  }

  // ----- the main loop of the program

  /** Steps of the main loop, what they hand over put together. */
  method RunMain(adapter: Adapter, es: seq<Event>) returns (toHost: seq<bv8>, toSerial: seq<bv8>)
    requires adapter.Valid() && AllMain(es)
    modifies adapter, adapter.usbToUsart, adapter.usbToUsart.buffer, adapter.usartToUsb
    ensures adapter.Valid() && adapter.Now() == Run(old(adapter.Now()), es, adapter.Capacity())
    ensures toHost == HostBytes(old(adapter.Now()), es, adapter.Capacity())
    ensures toSerial == SerialBytes(old(adapter.Now()), es, adapter.Capacity())
  {
    toHost, toSerial := [], [];
    ghost var s, capacity := adapter.Now(), adapter.Capacity();
    var i := 0;
    assert es[..0] == [];
    while i < |es|
      invariant 0 <= i <= |es| && adapter.Valid() && adapter.Now() == Run(s, es[..i], capacity)
      invariant toHost == HostBytes(s, es[..i], capacity) && toSerial == SerialBytes(s, es[..i], capacity)
    {
      assert es[..i + 1] == es[..i] + [es[i]];
      RunSplit(s, es[..i], [es[i]], capacity);
      RunOne(adapter.Now(), es[i], capacity);
      var h, u := adapter.Advance(es[i].available, es[i].next);
      toHost, toSerial := toHost + h, toSerial + u;
      i := i + 1;
    }
    assert es[..|es|] == es;
  }

  /** A lap of the main loop: the rings' contents come out, and what the host sent, as far as there was room. */
  method RunLap(adapter: Adapter, es: seq<Event>) returns (toHost: seq<bv8>, toSerial: seq<bv8>)
    requires adapter.Valid() && adapter.place == Begin && es != [] && AllMain(es)
    requires |es| == LapLength(adapter.Now(), es[0].available, adapter.Capacity())
    modifies adapter, adapter.usbToUsart, adapter.usbToUsart.buffer, adapter.usartToUsb
    ensures adapter.Valid() && adapter.place == Begin
    ensures adapter.usbToUsart.contents == [] && adapter.usartToUsb.contents == []
    ensures toHost == old(adapter.usartToUsb.contents)
    ensures var taken := Least(es[0].available, adapter.Capacity() - |old(adapter.usbToUsart.contents)|);
            toSerial == old(adapter.usbToUsart.contents) + Nexts(es[1..1 + taken])
  {
    Lap(adapter.Now(), es, adapter.Capacity());
    toHost, toSerial := RunMain(adapter, es);
  }
}
