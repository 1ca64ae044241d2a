/**
 The DHCP client: the packets it sends, and its way from the first DISCOVER to a configured address
 (section 4.4.1 of RFC 2131).
 */
module DhcpClient {
  import opened Words
  import opened DhcpOptions

  const DISCOVER: byte := 1
  const OFFER: byte := 2
  const REQUEST: byte := 3
  const ACK: byte := 5

  const SUBNET_MASK: byte := 1
  const ROUTER: byte := 3
  const DNS_SERVER: byte := 6
  const REQ_IPADDR: byte := 50
  const MSG_TYPE: byte := 53
  const SERVER_ID: byte := 54
  const REQ_LIST: byte := 55

  /** The transaction ID and the cookie as they lie in the packet, low byte first. */
  const XID: seq<byte> := [0x66, 0x54, 0x24, 0x13]
  const COOKIE: seq<byte> := [0x63, 0x82, 0x53, 0x63]

  /** The fixed part of a packet. */
  const HEADER := 240

  type Address = a: seq<byte> | |a| == 4 witness [0, 0, 0, 0]
  type Mac = a: seq<byte> | |a| == 6 witness [0, 0, 0, 0, 0, 0]

  const NOWHERE: Address := [0, 0, 0, 0]

  // ----- packets

  function Zeros(n: nat): (r: seq<byte>)
    ensures |r| == n
  {
    seq(n, _ => 0)
  }

  /** The header of a request: operation, hardware and its address length, hops, transaction, time, broadcast flag. */
  function Header(host: Address, ip: Address, server: Address, mac: Mac): (r: seq<byte>)
    ensures |r| == HEADER
  {
    [1, 1, 6, 0] + XID + [0, 0] + [0x80, 0] + host + ip + server + Zeros(4) + mac + Zeros(202) + COOKIE
  }

  /** A message with the options behind its type. */
  function Packet(kind: byte, host: Address, ip: Address, server: Address, mac: Mac,
                  options: seq<byte>): (r: seq<byte>) {
    Header(host, ip, server, mac) + [MSG_TYPE, 1, kind] + options + [END]
  }

  function DiscoverPacket(mac: Mac): (r: seq<byte>) {
    Packet(DISCOVER, NOWHERE, NOWHERE, NOWHERE, mac, [REQ_LIST, 3, SUBNET_MASK, ROUTER, DNS_SERVER])
  }

  function RequestPacket(host: Address, ip: Address, server: Address, mac: Mac): (r: seq<byte>) {
    Packet(REQUEST, host, ip, server, mac, [REQ_IPADDR, 4] + ip + ([SERVER_ID, 4] + server))
  }

  /** What the client looks at in a packet that has come in. */
  datatype Message = Message(xid: seq<byte>, yourIp: Address, entries: seq<Entry>)

  predicate Receivable(s: seq<byte>) {
    |s| > HEADER && WellFormed(s, HEADER)
  }

  function Parsed(s: seq<byte>): (m: Message)
    requires Receivable(s)
  {
    Message(s[4..8], s[16..20], Entries(s, HEADER))
  }

  predicate AtMost(es: seq<Entry>, code: byte, n: nat) {
    Lookup(es, code).Some? ==> |Lookup(es, code).value| <= n
  }

  /**
   A type of one byte, and no more data of the other options than the offer has room for from their fields on:
   the source copies as many bytes as an option has.
   */
  predicate Sane(m: Message) {
    && (Lookup(m.entries, MSG_TYPE).Some? ==> |Lookup(m.entries, MSG_TYPE).value| == 1)
    && AtMost(m.entries, SUBNET_MASK, 12) && AtMost(m.entries, ROUTER, 8) && AtMost(m.entries, SERVER_ID, 4)
  }

  // ----- the state machine

  datatype Phase = SendDiscover | WaitForOffer | SendRequest | WaitForAck | AddressLeased

  datatype Offer = Offer(ip: Address, netmask: Address, gateway: Address, server: Address)

  datatype Settings = Settings(host: Address, netmask: Address, router: Address, configured: bool)

  datatype Client = Client(phase: Phase, offer: Offer, net: Settings)

  /** A call: the packet that has come in, if any, and whether the timer has run out. */
  datatype Input = Input(message: Option<Message>, expired: bool)

  predicate IsReply(m: Message, kind: byte) {
    m.xid == XID && Lookup(m.entries, MSG_TYPE) == Some([kind])
  }

  // ----- an offer as it lies in memory

  type Block = b: seq<byte> | |b| == 16 witness seq(16, _ => 0)

  function InMemory(o: Offer): (b: Block) {
    o.ip + o.netmask + o.gateway + o.server
  }

  function FromMemory(b: Block): (o: Offer) {
    Offer(b[..4], b[4..8], b[8..12], b[12..])
  }

  function Patched(b: Block, at: nat, data: seq<byte>): (r: Block)
    requires at + |data| <= 16
  {
    b[..at] + data + b[at + |data|..]
  }

  /** An option copied to its field, and over the fields behind it if it is longer. */
  function Copied(b: Block, at: nat, es: seq<Entry>, code: byte): (r: Block)
    requires at <= 16 && AtMost(es, code, 16 - at)
  {
    if Lookup(es, code).Some? then Patched(b, at, Lookup(es, code).value) else b
  }

  function OfferBlock(o: Offer, m: Message): (b: Block)
    requires Sane(m)
  {
    Copied(Copied(Copied(Patched(InMemory(o), 0, m.yourIp), 4, m.entries, SUBNET_MASK), 8, m.entries, ROUTER),
           12, m.entries, SERVER_ID)
  }

  function Offered(o: Offer, m: Message): (r: Offer)
    requires Sane(m)
  {
    FromMemory(OfferBlock(o, m))
  }

  /** The offered address is always the one in the packet. */
  lemma OfferedAddress(o: Offer, m: Message)
    requires Sane(m)
    ensures Offered(o, m).ip == m.yourIp
  {
    var b0 := Patched(InMemory(o), 0, m.yourIp);
    var b1 := Copied(b0, 4, m.entries, SUBNET_MASK);
    var b2 := Copied(b1, 8, m.entries, ROUTER);
    var b3 := Copied(b2, 12, m.entries, SERVER_ID);
    assert b0[..4] == m.yourIp && b1[..4] == b0[..4] && b2[..4] == b1[..4] && b3[..4] == b2[..4];
  }

  predicate Exactly(es: seq<Entry>, code: byte, n: nat) {
    Lookup(es, code).Some? ==> |Lookup(es, code).value| == n
  }

  function Value(es: seq<Entry>, code: byte, otherwise: seq<byte>): (r: seq<byte>) {
    if Lookup(es, code).Some? then Lookup(es, code).value else otherwise
  }

  lemma Parts(o: Offer)
    ensures var b := InMemory(o);
            b[..4] == o.ip && b[4..8] == o.netmask && b[8..12] == o.gateway && b[12..16] == o.server
  {
  }

  lemma Outside(b: Block, at: nat, data: seq<byte>, lo: nat, hi: nat)
    requires at + |data| <= 16 && lo <= hi <= 16 && (hi <= at || at + |data| <= lo)
    ensures Patched(b, at, data)[lo..hi] == b[lo..hi]
  {
  }

  lemma CopiedOutside(b: Block, at: nat, es: seq<Entry>, code: byte, lo: nat, hi: nat)
    requires at <= 16 && AtMost(es, code, 16 - at) && lo <= hi <= 16
    requires hi <= at || (at + 4 <= lo && Exactly(es, code, 4))
    ensures Copied(b, at, es, code)[lo..hi] == b[lo..hi]
  {
    if Lookup(es, code).Some? {
      Outside(b, at, Lookup(es, code).value, lo, hi);
    }
  }

  lemma CopiedField(b: Block, at: nat, es: seq<Entry>, code: byte)
    requires at + 4 <= 16 && AtMost(es, code, 16 - at) && Exactly(es, code, 4)
    ensures Copied(b, at, es, code)[at..at + 4] == Value(es, code, b[at..at + 4])
  {
  }

  lemma CopiedRouters(b: Block, es: seq<Entry>)
    requires AtMost(es, ROUTER, 8) && (Exactly(es, ROUTER, 4) || Exactly(es, ROUTER, 8))
    ensures Copied(b, 8, es, ROUTER)[8..12] == Value(es, ROUTER, b[8..12])[..4]
    ensures Copied(b, 8, es, ROUTER)[12..16] == if Exactly(es, ROUTER, 4) then b[12..16] else Value(es, ROUTER, [])[4..]
  {
  }

  /**
   With options of the standard's lengths every field is that of its option, the first router if there are two;
   but without a server identifier the second router is taken for the server.
   */
  lemma OfferedFields(o: Offer, m: Message)
    requires Sane(m) && Exactly(m.entries, SUBNET_MASK, 4) && Exactly(m.entries, SERVER_ID, 4)
    requires Exactly(m.entries, ROUTER, 4) || Exactly(m.entries, ROUTER, 8)
    ensures Offered(o, m).netmask == Value(m.entries, SUBNET_MASK, o.netmask)
    ensures Offered(o, m).gateway == Value(m.entries, ROUTER, o.gateway)[..4]
    ensures Offered(o, m).server ==
              Value(m.entries, SERVER_ID,
                    if Exactly(m.entries, ROUTER, 4) then o.server else Value(m.entries, ROUTER, [])[4..])
  {
    var es := m.entries;
    var b0 := Patched(InMemory(o), 0, m.yourIp);
    var b1 := Copied(b0, 4, es, SUBNET_MASK);
    var b2 := Copied(b1, 8, es, ROUTER);
    Parts(o);
    Outside(InMemory(o), 0, m.yourIp, 4, 8);
    Outside(InMemory(o), 0, m.yourIp, 8, 12);
    Outside(InMemory(o), 0, m.yourIp, 12, 16);
    CopiedField(b0, 4, es, SUBNET_MASK);
    CopiedOutside(b0, 4, es, SUBNET_MASK, 8, 12);
    CopiedOutside(b0, 4, es, SUBNET_MASK, 12, 16);
    CopiedOutside(b1, 8, es, ROUTER, 4, 8);
    CopiedRouters(b1, es);
    CopiedOutside(b2, 12, es, SERVER_ID, 4, 8);
    CopiedOutside(b2, 12, es, SERVER_ID, 8, 12);
    CopiedField(b2, 12, es, SERVER_ID);
  }

  const NO_OFFER := Offer(NOWHERE, NOWHERE, NOWHERE, NOWHERE)

  predicate Awaited(i: Input, kind: byte) {
    i.message.Some? && IsReply(i.message.value, kind)
  }

  predicate TimedOut(i: Input) {
    i.message.None? && i.expired
  }

  predicate InputOk(i: Input) {
    i.message.Some? ==> Sane(i.message.value)
  }

  function Step(c: Client, i: Input): (r: Client)
    requires InputOk(i)
  {
    match c.phase
    case SendDiscover => Client(WaitForOffer, NO_OFFER, c.net.(host := NOWHERE))
    case WaitForOffer =>
      if Awaited(i, OFFER) then Client(SendRequest, Offered(c.offer, i.message.value), c.net)
      else if TimedOut(i) then c.(phase := SendDiscover)
      else c
    case SendRequest => c.(phase := WaitForAck)
    case WaitForAck =>
      if Awaited(i, ACK) then
        Client(AddressLeased, c.offer, Settings(c.offer.ip, c.offer.netmask, c.offer.gateway, true))
      else if TimedOut(i) then c.(phase := SendDiscover)
      else c
    case AddressLeased => c
  }

  /** What a call sends. */
  function Sent(c: Client, mac: Mac): (r: Option<seq<byte>>) {
    match c.phase
    case SendDiscover => Some(DiscoverPacket(mac))
    case SendRequest => Some(RequestPacket(c.net.host, c.offer.ip, c.offer.server, mac))
    case _ => None
  }

  // ----- runs

  predicate InputsOk(ins: seq<Input>) {
    forall i :: 0 <= i < |ins| ==> InputOk(ins[i])
  }

  /** The state after all these calls. */
  function After(c: Client, ins: seq<Input>): (r: Client)
    requires InputsOk(ins)
  {
    if ins == [] then c else Step(After(c, ins[..|ins| - 1]), ins[|ins| - 1])
  }

  lemma AfterLast(c: Client, ins: seq<Input>)
    requires InputsOk(ins) && ins != []
    ensures After(c, ins) == Step(After(c, ins[..|ins| - 1]), ins[|ins| - 1])
  {
  }

  /** A client that has just been set up. */
  predicate Initial(c: Client) {
    c.phase == SendDiscover && !c.net.configured
  }

  /** Call i takes an offer. */
  predicate OfferTaken(c: Client, ins: seq<Input>, i: nat)
    requires InputsOk(ins)
  {
    i < |ins| && After(c, ins[..i]).phase == WaitForOffer && Awaited(ins[i], OFFER)
  }

  function OfferOf(i: Input): (o: Offer)
    requires InputOk(i) && i.message.Some?
  {
    Offered(NO_OFFER, i.message.value)
  }

  /** Before call m the client waits for the answer to its request, and the call does not end that. */
  predicate StillWaiting(c: Client, ins: seq<Input>, m: nat)
    requires InputsOk(ins)
  {
    m < |ins| && After(c, ins[..m]).phase == WaitForAck && !TimedOut(ins[m]) && !Awaited(ins[m], ACK)
  }

  /** Call i took an offer, call i + 1 sent a request for it, and up to call n the client waited without a timeout. */
  predicate Requested(c: Client, ins: seq<Input>, i: nat, n: nat)
    requires InputsOk(ins)
  {
    && i + 2 <= n <= |ins| && OfferTaken(c, ins, i)
    && After(c, ins[..i + 1]).phase == SendRequest && After(c, ins[..i + 1]).offer == OfferOf(ins[i])
    && (forall m :: i + 2 <= m < n ==> StillWaiting(c, ins, m))
    && After(c, ins[..n]).phase == WaitForAck && After(c, ins[..n]).offer == OfferOf(ins[i])
    && !After(c, ins[..n]).net.configured
  }

  /** The requested lease was acknowledged in call k, and the settings are those of the offer. */
  predicate Leased(c: Client, ins: seq<Input>, i: nat, k: nat)
    requires InputsOk(ins)
  {
    && k < |ins| && Requested(c, ins, i, k) && Awaited(ins[k], ACK)
    && var o := OfferOf(ins[i]);
       After(c, ins).net == Settings(ins[i].message.value.yourIp, o.netmask, o.gateway, true) &&
         o.ip == ins[i].message.value.yourIp
  }

  lemma {:induction false} NotYetConfigured(c: Client, ins: seq<Input>)
    requires InputsOk(ins) && Initial(c)
    ensures After(c, ins).net.configured <==> After(c, ins).phase == AddressLeased
    ensures After(c, ins).phase == WaitForOffer ==> After(c, ins).offer == NO_OFFER
    ensures After(c, ins).phase == SendRequest ==>
              var i := |ins| - 1; i >= 0 && OfferTaken(c, ins, i) && After(c, ins).offer == OfferOf(ins[i])
  {
    if ins != [] {
      NotYetConfigured(c, ins[..|ins| - 1]);
      AfterLast(c, ins);
    }
  }

  /** What is said of the first n calls stays true when more follow. */
  lemma RequestLonger(c: Client, before: seq<Input>, ins: seq<Input>, i: nat, n: nat)
    requires InputsOk(ins) && n <= |before| <= |ins| && before == ins[..|before|] && Requested(c, before, i, n)
    ensures Requested(c, ins, i, n)
  {
    assert before[..i] == ins[..i] && before[..i + 1] == ins[..i + 1] && before[..n] == ins[..n];
    forall m | i + 2 <= m < n ensures StillWaiting(c, ins, m) {
      assert StillWaiting(c, before, m);
      assert before[..m] == ins[..m];
    }
  }

  lemma {:induction false} RequestBefore(c: Client, ins: seq<Input>) returns (i: nat)
    requires InputsOk(ins) && Initial(c) && After(c, ins).phase == WaitForAck
    ensures Requested(c, ins, i, |ins|)
  {
    var n := |ins| - 1;
    var before := ins[..n];
    assert ins[..|ins|] == ins;
    NotYetConfigured(c, ins);
    NotYetConfigured(c, before);
    AfterLast(c, ins);
    if After(c, before).phase == SendRequest {
      i := n - 1;
      assert before[..i] == ins[..i];
      assert ins[..i + 1] == before;
    } else {
      i := RequestBefore(c, before);
      assert before[..n] == before;
      RequestLonger(c, before, ins, i, n);
      assert StillWaiting(c, ins, n);
      assert forall m :: i + 2 <= m < n + 1 ==> StillWaiting(c, ins, m);
    }
  }

  /**
   A client has an address only because, in this order and with nothing but waiting in between: it took an
   offer, it sent a request for that offer, and the request was acknowledged; and the address is the one
   offered.
   */
  lemma {:induction false} LeaseRun(c: Client, ins: seq<Input>) returns (i: nat, k: nat)
    requires InputsOk(ins) && Initial(c) && After(c, ins).net.configured
    ensures Leased(c, ins, i, k)
  {
    var n := |ins| - 1;
    NotYetConfigured(c, ins);
    AfterLast(c, ins);
    var before := ins[..n];
    NotYetConfigured(c, before);
    if After(c, before).phase == WaitForAck {
      i := RequestBefore(c, before);
      k := n;
      assert before[..n] == before;
    } else {
      i, k := LeaseRun(c, before);
    }
    RequestLonger(c, before, ins, i, k);
    OfferedAddress(NO_OFFER, ins[i].message.value);
  }

  // ----- what is in the packets

  /** The options of a message, one after the other, in front of the END. */
  lemma OneEntry(s: seq<byte>, i: nat, code: byte, data: seq<byte>)
    requires |data| < 256 && code != END && i + 2 + |data| < |s| && WellFormed(s, i + 2 + |data|)
    requires s[i] == code && s[i + 1] == |data| && s[i + 2..i + 2 + |data|] == data
    ensures WellFormed(s, i) && Entries(s, i) == [Entry(code, data)] + Entries(s, i + 2 + |data|)
    ensures EndAt(s, i) == EndAt(s, i + 2 + |data|)
  {
  }

  lemma Tail(h: seq<byte>, t: seq<byte>, i: nat, n: nat)
    requires i + n <= |t|
    ensures (h + t)[|h| + i..|h| + i + n] == t[i..i + n] && (i < |t| ==> (h + t)[|h| + i] == t[i])
  {
  }

  function RequestOptions(ip: Address, server: Address): (t: seq<byte>)
    ensures |t| == 16
  {
    [MSG_TYPE, 1, REQUEST] + ([REQ_IPADDR, 4] + ip + ([SERVER_ID, 4] + server)) + [END]
  }

  lemma RequestOptionBytes(ip: Address, server: Address)
    ensures var t := RequestOptions(ip, server);
            && t[0] == MSG_TYPE && t[1] == 1 && t[2..3] == [REQUEST] && t[3] == REQ_IPADDR && t[4] == 4 && t[5..9] == ip
            && t[9] == SERVER_ID && t[10] == 4 && t[11..15] == server && t[15] == END
  {
  }

  /** The options of a request, behind whatever header. */
  lemma RequestEntries(h: seq<byte>, ip: Address, server: Address)
    requires |h| == HEADER
    ensures var p := h + RequestOptions(ip, server);
            && Receivable(p) && EndAt(p, HEADER) == |p| - 1
            && Entries(p, HEADER) == [Entry(MSG_TYPE, [REQUEST]), Entry(REQ_IPADDR, ip), Entry(SERVER_ID, server)]
  {
    var t := RequestOptions(ip, server);
    var p := h + t;
    RequestOptionBytes(ip, server);
    Tail(h, t, 15, 0);
    assert WellFormed(p, 255) && Entries(p, 255) == [] && EndAt(p, 255) == 255;
    Tail(h, t, 9, 0);
    Tail(h, t, 10, 0);
    Tail(h, t, 11, 4);
    OneEntry(p, 249, SERVER_ID, server);
    Tail(h, t, 3, 0);
    Tail(h, t, 4, 0);
    Tail(h, t, 5, 4);
    OneEntry(p, 243, REQ_IPADDR, ip);
    Tail(h, t, 0, 0);
    Tail(h, t, 1, 0);
    Tail(h, t, 2, 1);
    OneEntry(p, 240, MSG_TYPE, [REQUEST]);
  }

  /** The request names the offered address and the server that offered it; its last byte is the END. */
  lemma RequestContents(host: Address, ip: Address, server: Address, mac: Mac)
    ensures var p := RequestPacket(host, ip, server, mac);
            && Receivable(p) && EndAt(p, HEADER) == |p| - 1 && p[4..8] == XID
            && Entries(p, HEADER) == [Entry(MSG_TYPE, [REQUEST]), Entry(REQ_IPADDR, ip), Entry(SERVER_ID, server)]
  {
    var p, h := RequestPacket(host, ip, server, mac), Header(host, ip, server, mac);
    assert p == h + RequestOptions(ip, server);
    RequestEntries(h, ip, server);
    assert p[4..8] == h[4..8] == XID;
  }
}
