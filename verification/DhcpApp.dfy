/** The callback of the DHCP client, on the packet buffer it shares with the network stack. */
module DhcpApp {
  import opened Words
  import opened DhcpOptions
  import opened DhcpClient

  /** Room for the largest packet sent. */
  const ROOM := 256

  /** The packet with its type as the only option. */
  function Start(kind: byte, host: Address, ip: Address, server: Address, mac: Mac): (r: seq<byte>)
    ensures |r| == HEADER + 4
  {
    Packet(kind, host, ip, server, mac, [])
  }

  /** What SetOption adds to a packet it is given as a prefix of the buffer. */
  lemma Appended(s: seq<byte>, p: seq<byte>, e: Entry)
    requires Receivable(s) && |e.data| < 254 && p != [] && EndAt(s, HEADER) == |p| - 1 && |p| + |e.data| + 2 <= |s|
    requires s[..|p|] == p
    ensures Extended(s, HEADER, e)[..|p| + |e.data| + 2] == p[..|p| - 1] + Encoded(e)
  {
    var x := Encoded(e);
    assert s[..|p| - 1] == p[..|p| - 1];
    var rest := s[|p| - 1 + |e.data| + 3..];
    assert Extended(s, HEADER, e) == p[..|p| - 1] + x + rest;
    assert |p[..|p| - 1] + x| == |p| + |e.data| + 2;
  }

  lemma StartWellFormed(s: seq<byte>, kind: byte, host: Address, ip: Address, server: Address, mac: Mac)
    requires |s| >= ROOM && s[..HEADER + 4] == Start(kind, host, ip, server, mac)
    ensures Receivable(s) && EndAt(s, HEADER) == HEADER + 3 && Entries(s, HEADER) == [Entry(MSG_TYPE, [kind])]
  {
    var p, h := Start(kind, host, ip, server, mac), Header(host, ip, server, mac);
    var t := [MSG_TYPE, 1, kind] + [] + [END];
    assert p == h + t;
    assert s[243] == p[243] == t[3] && s[240] == p[240] == t[0] && s[241] == p[241] == t[1] && s[242] == p[242] == t[2];
    assert WellFormed(s, 243) && Entries(s, 243) == [] && EndAt(s, 243) == 243;
    OneEntry(s, 240, MSG_TYPE, [kind]);
  }

  lemma OneOption(p: seq<byte>, kind: byte, host: Address, ip: Address, server: Address, mac: Mac, options: seq<byte>,
                  e: Entry)
    requires p == Packet(kind, host, ip, server, mac, options) && |e.data| < 254
    ensures p[..|p| - 1] + Encoded(e) == Packet(kind, host, ip, server, mac, options + ([e.code, |e.data|] + e.data))
  {
    var h := Header(host, ip, server, mac) + [MSG_TYPE, 1, kind];
    assert p[..|p| - 1] == h + options;
    assert h + options + ([e.code, |e.data|] + e.data + [END]) == h + (options + ([e.code, |e.data|] + e.data)) + [END];
  }

  lemma SameOffer(o: Offer)
    ensures FromMemory(InMemory(o)) == o
  {
    var b := InMemory(o);
    assert b[..4] == o.ip && b[4..8] == o.netmask && b[8..12] == o.gateway && b[12..] == o.server;
  }

  lemma TakeThrough(low: seq<byte>, data: seq<byte>, high: seq<byte>, n: nat)
    requires |low| + |data| <= n <= |low| + |data| + |high|
    ensures (low + data + high)[..n] == low + data + high[..n - (|low| + |data|)]
  {
  }

  class Dhcp {
    const packet: array<byte>
    const mac: Mac
    var phase: Phase
    var offer: Offer
    var hostAddr: Address
    var netmask: Address
    var router: Address
    var haveIPConfiguration: bool

    ghost predicate Valid()
      reads this
    {
      packet.Length >= ROOM
    }

    function Now(): (c: Client)
      reads this
    {
      Client(phase, offer, Settings(hostAddr, netmask, router, haveIPConfiguration))
    }

    /** The buffer belongs to the network stack. */
    constructor (packet: array<byte>, mac: Mac)
      requires packet.Length >= ROOM
      ensures Valid() && this.packet == packet && this.mac == mac && Initial(Now())
    {
      this.packet, this.mac := packet, mac;
      phase, offer := SendDiscover, NO_OFFER;
      hostAddr, netmask, router, haveIPConfiguration := NOWHERE, NOWHERE, NOWHERE, false;
    }

    /** Writes a field behind those already written; what lies between stays zero. */
    method PutField(at: nat, data: seq<byte>, ghost done: seq<byte>) returns (ghost done': seq<byte>)
      requires Valid() && |done| <= at && at + |data| <= HEADER && packet[..HEADER] == done + Zeros(HEADER - |done|)
      modifies packet
      ensures done' == done + Zeros(at - |done|) + data
      ensures packet[..HEADER] == done' + Zeros(HEADER - |done'|)
    {
      ghost var before := packet[..HEADER];
      Copy(packet, at, data);
      done' := done + Zeros(at - |done|) + data;
      ghost var low, high := old(packet[..at]), old(packet[at + |data|..]);
      assert before[..at] == low && before[at + |data|..] == high[..HEADER - (at + |data|)];
      TakeThrough(low, data, high, HEADER);
      assert packet[..HEADER] == packet[..][..HEADER] == before[..at] + data + before[at + |data|..];
      assert before[..at] == done + Zeros(at - |done|);
      assert before[at + |data|..] == Zeros(HEADER - |done'|);
    }

    method ClearHeader()
      requires Valid()
      modifies packet
      ensures packet[..HEADER] == Zeros(HEADER)
    {
      var i := 0;
      while i < HEADER
        invariant 0 <= i <= HEADER && packet[..i] == Zeros(i)
      {
        packet[i] := 0;
        i := i + 1;
      }
    }

    method FillKinds() returns (ghost done: seq<byte>)
      requires Valid()
      modifies packet
      ensures done == [1, 1, 6, 0] && packet[..HEADER] == done + Zeros(HEADER - |done|)
    {
      ClearHeader();
      done := PutField(0, [1], []);
      done := PutField(1, [1], done);
      done := PutField(2, [6], done);
      done := PutField(3, [0], done);
    }

    method FillFixedFields() returns (ghost done: seq<byte>)
      requires Valid()
      modifies packet
      ensures done == [1, 1, 6, 0] + XID + [0, 0] + [0x80, 0] && packet[..HEADER] == done + Zeros(HEADER - |done|)
    {
      done := FillKinds();
      done := PutField(4, XID, done);
      done := PutField(8, [0, 0], done);
      done := PutField(10, [0x80, 0], done);
    }

    method FillDHCPHeader(kind: byte) returns (size: nat)
      requires Valid()
      modifies packet
      ensures size == HEADER + 4 && packet[..size] == Start(kind, hostAddr, offer.ip, offer.server, mac)
    {
      ghost var done := FillFixedFields();
      done := PutField(12, hostAddr, done);
      done := PutField(16, offer.ip, done);
      done := PutField(20, offer.server, done);
      done := PutField(28, mac, done);
      done := PutField(236, COOKIE, done);
      assert done == Header(hostAddr, offer.ip, offer.server, mac);
      Copy(packet, HEADER, [MSG_TYPE, 1, kind, END]);
      size := HEADER + 4;
    }

    /** Adds an option to the packet that is being built; `p` is what it holds so far. */
    method AddOption(code: byte, data: seq<byte>, size: nat, ghost kind: byte, ghost options: seq<byte>)
      returns (size': nat)
      requires Valid() && Receivable(packet[..]) && code != END && |data| < 254 && size + |data| + 2 <= ROOM
      requires 0 < size && EndAt(packet[..], HEADER) == size - 1
      requires packet[..size] == Packet(kind, hostAddr, offer.ip, offer.server, mac, options)
      modifies packet
      ensures Receivable(packet[..]) && size' == size + |data| + 2 && EndAt(packet[..], HEADER) == size' - 1
      ensures packet[..size'] == Packet(kind, hostAddr, offer.ip, offer.server, mac, options + ([code, |data|] + data))
    {
      ghost var before, p := packet[..], packet[..size];
      var added := SetOption(packet, HEADER, code, data);
      size' := size + added;
      assert added == 2 + |data|;
      Appended(before, p, Entry(code, data));
      OneOption(p, kind, hostAddr, offer.ip, offer.server, mac, options, Entry(code, data));
    }

    method SendDiscoverPacket() returns (sent: seq<byte>)
      requires Valid() && offer == NO_OFFER && hostAddr == NOWHERE
      modifies packet
      ensures sent == DiscoverPacket(mac)
    {
      var size := FillDHCPHeader(DISCOVER);
      StartWellFormed(packet[..], DISCOVER, hostAddr, offer.ip, offer.server, mac);
      size := AddOption(REQ_LIST, [SUBNET_MASK, ROUTER, DNS_SERVER], size, DISCOVER, []);
      sent := packet[..size];
    }

    method SendRequestPacket() returns (sent: seq<byte>)
      requires Valid()
      modifies packet
      ensures sent == RequestPacket(hostAddr, offer.ip, offer.server, mac)
    {
      var size := FillDHCPHeader(REQUEST);
      StartWellFormed(packet[..], REQUEST, hostAddr, offer.ip, offer.server, mac);
      size := AddOption(REQ_IPADDR, offer.ip, size, REQUEST, []);
      ghost var options := [] + ([REQ_IPADDR, |offer.ip|] + offer.ip);
      size := AddOption(SERVER_ID, offer.server, size, REQUEST, options);
      sent := packet[..size];
      assert options + ([SERVER_ID, 4] + offer.server) == [REQ_IPADDR, 4] + offer.ip + ([SERVER_ID, 4] + offer.server);
    }

    /** Whether the packet that has come in is a reply of this kind in the client's transaction. */
    method IsExpected(kind: byte) returns (r: bool)
      requires Valid() && Receivable(packet[..]) && Sane(Parsed(packet[..]))
      ensures r == IsReply(Parsed(packet[..]), kind)
    {
      if packet[4..8] == XID {
        var messageType := GetOption(packet, HEADER, MSG_TYPE);
        r := messageType == Some([kind]);
      } else {
        r := false;
      }
      assert packet[..][4..8] == packet[4..8];
    }

    method SetOffer(b: Block)
      modifies this`offer
      ensures offer == FromMemory(b) && InMemory(offer) == b
    {
      offer := FromMemory(b);
      assert b[..4] + b[4..8] + b[8..12] + b[12..] == b;
    }

    /** Copies an option over the offer, from the place of its field on. */
    method CopyOption(code: byte, at: nat)
      requires Valid() && Receivable(packet[..]) && code != END && at <= 16
      requires AtMost(Entries(packet[..], HEADER), code, 16 - at)
      modifies this`offer
      ensures InMemory(offer) == Copied(old(InMemory(offer)), at, Entries(packet[..], HEADER), code)
    {
      var field := GetOption(packet, HEADER, code);
      if field.Some? {
        SetOffer(Patched(InMemory(offer), at, field.value));
      }
    }

    method TakeOffer()
      requires Valid() && Receivable(packet[..]) && Sane(Parsed(packet[..]))
      modifies this`offer
      ensures offer == Offered(old(offer), Parsed(packet[..]))
    {
      assert packet[..][16..20] == packet[16..20];
      SetOffer(Patched(InMemory(offer), 0, packet[16..20]));
      CopyOption(SUBNET_MASK, 4);
      CopyOption(ROUTER, 8);
      CopyOption(SERVER_ID, 12);
      SameOffer(offer);
    }

    /** What the stack has for the client: the packet in the buffer if there is new data, and the timer. */
    ghost function Given(newData: bool, expired: bool): (i: Input)
      reads this, packet
      requires newData ==> Receivable(packet[..])
    {
      Input(if newData then Some(Parsed(packet[..])) else None, expired)
    }

    /** One call from the network stack. */
    method Callback(newData: bool, expired: bool) returns (sent: Option<seq<byte>>)
      requires Valid() && (newData ==> Receivable(packet[..])) && InputOk(Given(newData, expired))
      modifies this, packet
      ensures Now() == Step(old(Now()), old(Given(newData, expired)))
      ensures sent == Sent(old(Now()), mac)
    {
      sent := None;
      match phase {
        case SendDiscover =>
          offer := NO_OFFER;
          hostAddr := offer.ip;
          var p := SendDiscoverPacket();
          sent := Some(p);
          phase := WaitForOffer;
        case WaitForOffer =>
          if !newData {
            if expired {
              phase := SendDiscover;
            }
          } else {
            var expected := IsExpected(OFFER);
            if expected {
              TakeOffer();
              phase := SendRequest;
            }
          }
        case SendRequest =>
          var p := SendRequestPacket();
          sent := Some(p);
          phase := WaitForAck;
        case WaitForAck =>
          if !newData {
            if expired {
              phase := SendDiscover;
            }
          } else {
            var expected := IsExpected(ACK);
            if expected {
              hostAddr := offer.ip;
              netmask := offer.netmask;
              router := offer.gateway;
              haveIPConfiguration := true;
              phase := AddressLeased;
            }
          }
        case AddressLeased =>
      }
    }
  }
}
