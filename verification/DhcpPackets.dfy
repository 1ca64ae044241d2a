/**
 What the DHCP client puts on the network, byte by byte (sections 2 and 4.4.1 of RFC 2131), and how it comes to a
 lease, whatever it hears in between.
 */
module DhcpPackets {
  import opened Words
  import opened DhcpOptions
  import opened DhcpClient

  // ----- the packets

  /** The fields of a packet at the places of section 2 of RFC 2131, what is not filled in being zero. */
  predicate Layout(p: seq<byte>, host: Address, ip: Address, server: Address, mac: Mac) {
    && |p| >= 240
    && p[0] == 1 && p[1] == 1 && p[2] == 6 && p[3] == 0
    && p[4..8] == [0x66, 0x54, 0x24, 0x13]
    && p[8] == 0 && p[9] == 0 && p[10] == 0x80 && p[11] == 0
    && p[12..16] == host && p[16..20] == ip && p[20..24] == server
    && (forall i :: 24 <= i < 28 ==> p[i] == 0)
    && p[28..34] == mac
    && (forall i :: 34 <= i < 236 ==> p[i] == 0)
    && p[236] == 0x63 && p[237] == 0x82 && p[238] == 0x53 && p[239] == 0x63
  }

  lemma FirstFields(rest: seq<byte>)
    ensures var p := [1, 1, 6, 0] + XID + [0, 0] + [0x80, 0] + rest;
            && |p| == 12 + |rest| && p[0] == 1 && p[1] == 1 && p[2] == 6 && p[3] == 0
            && p[4..8] == [0x66, 0x54, 0x24, 0x13] && p[8] == 0 && p[9] == 0 && p[10] == 0x80 && p[11] == 0
            && p[12..] == rest
  {
  }

  /** The header behind the first twelve bytes. */
  function LaterFields(host: Address, ip: Address, server: Address, mac: Mac): (r: seq<byte>)
    ensures |r| == 228
  {
    host + ip + server + Zeros(4) + mac + Zeros(202) + COOKIE
  }

  lemma AddressFields(host: Address, ip: Address, server: Address, mac: Mac)
    ensures var r := LaterFields(host, ip, server, mac);
            && r[0..4] == host && r[4..8] == ip && r[8..12] == server && (forall i :: 12 <= i < 16 ==> r[i] == 0)
  {
    var rest := Zeros(4) + mac + Zeros(202) + COOKIE;
    assert LaterFields(host, ip, server, mac) == host + ip + server + rest;
  }

  lemma HardwareFields(host: Address, ip: Address, server: Address, mac: Mac)
    ensures var r := LaterFields(host, ip, server, mac);
            && r[16..22] == mac && (forall i :: 22 <= i < 224 ==> r[i] == 0)
            && r[224] == 0x63 && r[225] == 0x82 && r[226] == 0x53 && r[227] == 0x63
  {
    var low := host + ip + server + Zeros(4);
    var rest := mac + Zeros(202) + COOKIE;
    assert LaterFields(host, ip, server, mac) == low + rest;
    assert rest[..6] == mac && rest[208] == 0x63 && rest[209] == 0x82 && rest[210] == 0x53 && rest[211] == 0x63;
  }

  lemma HeaderLayout(host: Address, ip: Address, server: Address, mac: Mac)
    ensures Layout(Header(host, ip, server, mac), host, ip, server, mac)
  {
    var h, r := Header(host, ip, server, mac), LaterFields(host, ip, server, mac);
    FirstFields(r);
    AddressFields(host, ip, server, mac);
    HardwareFields(host, ip, server, mac);
    assert h == [1, 1, 6, 0] + XID + [0, 0] + [0x80, 0] + r;
    forall i | 12 <= i < 240 ensures h[i] == r[i - 12] {
      assert h[12..][i - 12] == r[i - 12];
    }
    assert h[12..16] == r[0..4] && h[16..20] == r[4..8] && h[20..24] == r[8..12] && h[28..34] == r[16..22];
  }

  lemma LayoutLonger(h: seq<byte>, t: seq<byte>, host: Address, ip: Address, server: Address, mac: Mac)
    requires Layout(h, host, ip, server, mac)
    ensures Layout(h + t, host, ip, server, mac)
  {
    var p := h + t;
    assert p[4..8] == h[4..8] && p[12..16] == h[12..16] && p[16..20] == h[16..20] && p[20..24] == h[20..24];
    assert p[28..34] == h[28..34];
  }

  /** Every message the client can send has this layout. */
  lemma PacketLayout(kind: byte, host: Address, ip: Address, server: Address, mac: Mac, options: seq<byte>)
    ensures Layout(Packet(kind, host, ip, server, mac, options), host, ip, server, mac)
  {
    var h := Header(host, ip, server, mac);
    HeaderLayout(host, ip, server, mac);
    assert Packet(kind, host, ip, server, mac, options) == h + ([MSG_TYPE, 1, kind] + options + [END]);
    LayoutLonger(h, [MSG_TYPE, 1, kind] + options + [END], host, ip, server, mac);
  }

  /** The DISCOVER: no address yet, type 1, and a list that asks for the options 1, 3 and 6. */
  lemma DiscoverContents(mac: Mac)
    ensures var p := DiscoverPacket(mac);
            && Layout(p, [0, 0, 0, 0], [0, 0, 0, 0], [0, 0, 0, 0], mac)
            && Receivable(p) && EndAt(p, 240) == |p| - 1 && p[|p| - 1] == 255
            && Entries(p, 240) == [Entry(53, [1]), Entry(55, [1, 3, 6])]
  {
    var h, t := Header(NOWHERE, NOWHERE, NOWHERE, mac), [53, 1, 1] + [55, 3, 1, 3, 6] + [END];
    var p := DiscoverPacket(mac);
    PacketLayout(DISCOVER, NOWHERE, NOWHERE, NOWHERE, mac, [55, 3, 1, 3, 6]);
    assert p == h + t;
    Tail(h, t, 8, 0);
    assert WellFormed(p, 248) && Entries(p, 248) == [] && EndAt(p, 248) == 248;
    Tail(h, t, 3, 0);
    Tail(h, t, 4, 0);
    Tail(h, t, 5, 3);
    OneEntry(p, 243, 55, [1, 3, 6]);
    Tail(h, t, 0, 0);
    Tail(h, t, 1, 0);
    Tail(h, t, 2, 1);
    OneEntry(p, 240, 53, [1]);
  }

  /** The REQUEST: the offered address and its server in their fields and, with type 3, in the options 50 and 54. */
  lemma RequestLayout(host: Address, ip: Address, server: Address, mac: Mac)
    ensures var p := RequestPacket(host, ip, server, mac);
            && Layout(p, host, ip, server, mac)
            && Receivable(p) && EndAt(p, 240) == |p| - 1 && p[|p| - 1] == 255
            && Entries(p, 240) == [Entry(53, [3]), Entry(50, ip), Entry(54, server)]
  {
    RequestContents(host, ip, server, mac);
    PacketLayout(REQUEST, host, ip, server, mac, [REQ_IPADDR, 4] + ip + ([SERVER_ID, 4] + server));
  }

  /** What the client looks at in a packet with this layout: the transaction, and the address in bytes 16 to 20. */
  lemma ParsedLayout(p: seq<byte>, host: Address, ip: Address, server: Address, mac: Mac)
    requires Layout(p, host, ip, server, mac) && Receivable(p)
    ensures Parsed(p).xid == [0x66, 0x54, 0x24, 0x13] && Parsed(p).yourIp == ip && Parsed(p).entries == Entries(p, 240)
  {
  }

  // ----- the way to a lease

  /** A reply in the client's transaction, of the given type. */
  predicate Reply(i: Input, kind: byte) {
    && i.message.Some? && i.message.value.xid == [0x66, 0x54, 0x24, 0x13]
    && Lookup(i.message.value.entries, 53) == Some([kind])
  }

  /** Neither such a reply nor a timeout. */
  predicate Idle(i: Input, kind: byte) {
    !Reply(i, kind) && (i.message.Some? || !i.expired)
  }

  predicate AllIdle(ins: seq<Input>, kind: byte) {
    forall i :: 0 <= i < |ins| ==> Idle(ins[i], kind)
  }

  lemma {:induction false} AfterAppend(c: Client, x: seq<Input>, y: seq<Input>)
    requires InputsOk(x) && InputsOk(y)
    ensures After(c, x + y) == After(After(c, x), y)
    decreases |y|
  {
    if y == [] {
      assert x + y == x;
    } else {
      var n := |y| - 1;
      assert (x + y)[..|x + y| - 1] == x + y[..n];
      AfterAppend(c, x, y[..n]);
    }
  }

  lemma AfterOne(c: Client, i: Input)
    requires InputOk(i)
    ensures After(c, [i]) == Step(c, i)
  {
    assert [i][..0] == [];
  }

  /** While the client waits, nothing changes. */
  lemma {:induction false} WaitsOn(c: Client, ins: seq<Input>)
    requires InputsOk(ins)
    requires (c.phase == WaitForOffer && AllIdle(ins, 2)) || (c.phase == WaitForAck && AllIdle(ins, 5))
    ensures After(c, ins) == c
  {
    if ins != [] {
      WaitsOn(c, ins[..|ins| - 1]);
    }
  }

  /** A timeout ends the waiting: the client starts again, with a DISCOVER. */
  lemma Restarts(c: Client, i: Input, mac: Mac)
    requires InputOk(i) && (c.phase == WaitForOffer || c.phase == WaitForAck) && i.message.None? && i.expired
    ensures var r := Step(c, i);
            && Sent(c, mac) == None && r.phase == SendDiscover && r.net == c.net
            && Sent(r, mac) == Some(DiscoverPacket(mac))
  {
  }

  /** The client sends in no other phase than these two, and there whatever has come in. */
  lemma SendsOnly(c: Client, i: Input, mac: Mac)
    requires InputOk(i)
    ensures Sent(c, mac).Some? <==> c.phase == SendDiscover || c.phase == SendRequest
    ensures c.phase == SendDiscover ==> Step(c, i).phase == WaitForOffer
    ensures c.phase == SendRequest ==> Step(c, i).phase == WaitForAck && Step(c, i).net == c.net
  {
  }

  /**
   From the first call to a lease, whatever else is heard: a DISCOVER, any number of idle calls, an offer, a
   REQUEST for what is offered, any number of idle calls, and the acknowledge. The address configured is the one
   in the offer, and the REQUEST has named it and the server.
   */
  lemma LeaseGot(c: Client, i: Input, w: seq<Input>, offer: Input, j: Input, v: seq<Input>, ack: Input, mac: Mac)
    requires Initial(c) && InputOk(i) && InputsOk(w) && InputOk(offer) && InputOk(j) && InputsOk(v) && InputOk(ack)
    requires AllIdle(w, 2) && Reply(offer, 2) && AllIdle(v, 5) && Reply(ack, 5)
    ensures var o := OfferOf(offer);
            var offered, requesting := After(c, [i] + w), After(c, [i] + w + [offer]);
            var leased := After(c, [i] + w + [offer] + [j] + v + [ack]);
            && Sent(c, mac) == Some(DiscoverPacket(mac)) && Sent(offered, mac) == None
            && Sent(requesting, mac) == Some(RequestPacket([0, 0, 0, 0], o.ip, o.server, mac))
            && leased.phase == AddressLeased && leased.net == Settings(o.ip, o.netmask, o.gateway, true)
            && o.ip == offer.message.value.yourIp
  {
    var c1 := Step(c, i);
    AfterOne(c, i);
    AfterAppend(c, [i], w);
    WaitsOn(c1, w);
    AfterAppend(c, [i] + w, [offer]);
    AfterOne(c1, offer);
    OfferedAddress(NO_OFFER, offer.message.value);
    var c2 := Step(c1, offer);
    AfterAppend(c, [i] + w + [offer], [j]);
    AfterOne(c2, j);
    var c3 := Step(c2, j);
    AfterAppend(c, [i] + w + [offer] + [j], v);
    WaitsOn(c3, v);
    AfterAppend(c, [i] + w + [offer] + [j] + v, [ack]);
    AfterOne(c3, ack);
  }
}
