/**
 The option list of a DHCP packet (sections 2 and 3.2 of RFC 2132): a code, a length and as many bytes for each
 entry, up to the END code. Entries without a length byte do not occur.
 */
module DhcpOptions {
  import opened Words

  const END := 255

  datatype Entry = Entry(code: byte, data: seq<byte>)

  /** A list that starts at i reaches its END inside s. */
  predicate WellFormed(s: seq<byte>, i: nat)
    decreases |s| - i
  {
    i < |s| && (s[i] == END || (i + 1 < |s| && i + 2 + s[i + 1] < |s| && WellFormed(s, i + 2 + s[i + 1])))
  }

  /** Where the END is. */
  function EndAt(s: seq<byte>, i: nat): (e: nat)
    requires WellFormed(s, i)
    ensures i <= e < |s| && s[e] == END
    decreases |s| - i
  {
    if s[i] == END then i else EndAt(s, i + 2 + s[i + 1])
  }

  function Entries(s: seq<byte>, i: nat): (r: seq<Entry>)
    requires WellFormed(s, i)
    decreases |s| - i
  {
    if s[i] == END then [] else [Entry(s[i], s[i + 2..i + 2 + s[i + 1]])] + Entries(s, i + 2 + s[i + 1])
  }

  /** The data of the first entry with this code. */
  function Lookup(es: seq<Entry>, code: byte): (r: Option<seq<byte>>) {
    if es == [] then None else if es[0].code == code then Some(es[0].data) else Lookup(es[1..], code)
  }

  /** The bytes of an entry in front of an END. */
  function Encoded(e: Entry): (r: seq<byte>)
    requires |e.data| < 256
  {
    [e.code, |e.data|] + e.data + [END]
  }

  /** The list with an entry put in the place of its END. */
  function Extended(s: seq<byte>, i: nat, e: Entry): (r: seq<byte>)
    requires WellFormed(s, i) && |e.data| < 256 && EndAt(s, i) + |e.data| + 2 < |s|
    ensures |r| == |s|
  {
    s[..EndAt(s, i)] + Encoded(e) + s[EndAt(s, i) + |e.data| + 3..]
  }

  lemma ExtendedAt(s: seq<byte>, i: nat, e: Entry)
    requires WellFormed(s, i) && |e.data| < 256 && EndAt(s, i) + |e.data| + 2 < |s| && s[i] != END
    ensures Extended(s, i, e)[i] == s[i] && Extended(s, i, e)[i + 1] == s[i + 1]
    ensures Extended(s, i, e)[i + 2..i + 2 + s[i + 1]] == s[i + 2..i + 2 + s[i + 1]]
    ensures Extended(s, i, e) == Extended(s, i + 2 + s[i + 1], e)
  {
  }

  lemma ExtendedBytes(s: seq<byte>, i: nat, e: Entry)
    requires WellFormed(s, i) && |e.data| < 256 && i + |e.data| + 2 < |s| && s[i] == END
    ensures var r := Extended(s, i, e);
            r[i] == e.code && r[i + 1] == |e.data| && r[i + 2..i + 2 + |e.data|] == e.data && r[i + 2 + |e.data|] == END
  {
    var x := Encoded(e);
    var r := s[..i] + x + s[i + |e.data| + 3..];
    assert r[i..i + |x|] == x;
    assert r[i + 2..i + 2 + |e.data|] == x[2..2 + |e.data|];
    assert r[i + 2 + |e.data|] == x[2 + |e.data|];
  }

  lemma ExtendedEnd(s: seq<byte>, i: nat, e: Entry)
    requires WellFormed(s, i) && |e.data| < 256 && i + |e.data| + 2 < |s| && s[i] == END && e.code != END
    ensures var r := Extended(s, i, e);
            && WellFormed(r, i) && Entries(r, i) == [e] && EndAt(r, i) == i + 2 + |e.data|
  {
    var r, j := Extended(s, i, e), i + 2 + |e.data|;
    ExtendedBytes(s, i, e);
    assert WellFormed(r, j) && Entries(r, j) == [] && EndAt(r, j) == j;
    assert Entries(r, i) == [Entry(r[i], r[i + 2..j])] + Entries(r, j);
  }

  /** An entry put in the place of the END comes after all others, and the list grows by its size. */
  lemma {:induction false} ExtendedEntries(s: seq<byte>, i: nat, e: Entry)
    requires WellFormed(s, i) && |e.data| < 256 && EndAt(s, i) + |e.data| + 2 < |s| && e.code != END
    ensures var r := Extended(s, i, e);
            && WellFormed(r, i) && Entries(r, i) == Entries(s, i) + [e] && EndAt(r, i) == EndAt(s, i) + 2 + |e.data|
    decreases |s| - i
  {
    if s[i] == END {
      ExtendedEnd(s, i, e);
    } else {
      var j := i + 2 + s[i + 1];
      ExtendedAt(s, i, e);
      ExtendedEntries(s, j, e);
      assert Entries(Extended(s, i, e), i) == [Entry(s[i], s[i + 2..j])] + Entries(Extended(s, j, e), j);
    }
  }

  /** A new option is found if there was none with its code; every other answer stays the same. */
  lemma {:induction false} LookupAfter(es: seq<Entry>, e: Entry, code: byte)
    ensures Lookup(es + [e], code) ==
              if Lookup(es, code).None? && code == e.code then Some(e.data) else Lookup(es, code)
  {
    if es != [] {
      assert (es + [e])[1..] == es[1..] + [e];
      LookupAfter(es[1..], e, code);
    } else {
      assert [e][1..] == [];
    }
  }

  method Copy(packet: array<byte>, at: nat, data: seq<byte>)
    requires at + |data| <= packet.Length
    modifies packet
    ensures packet[..] == old(packet[..at]) + data + old(packet[at + |data|..])
  {
    var i := 0;
    while i < |data|
      invariant 0 <= i <= |data|
      invariant packet[..at] == old(packet[..at]) && packet[at + i..] == old(packet[at + i..])
      invariant packet[at..at + i] == data[..i]
    {
      packet[at + i] := data[i];
      i := i + 1;
    }
  }

  /** Writes an entry and an END. */
  method PutEntry(packet: array<byte>, at: nat, option: byte, optionData: seq<byte>)
    requires at + |optionData| + 2 < packet.Length && |optionData| < 256
    modifies packet
    ensures packet[..] == old(packet[..at]) + Encoded(Entry(option, optionData)) + old(packet[at + |optionData| + 3..])
  {
    packet[at] := option;
    packet[at + 1] := |optionData|;
    Copy(packet, at + 2, optionData);
    packet[at + 2 + |optionData|] := END;
  }

  /**
   Finds the END, puts the entry there and a new END behind it. The size added is returned in eight bits, so it
   is right up to 253 bytes of data.
   */
  method SetOption(packet: array<byte>, options: nat, option: byte, optionData: seq<byte>) returns (added: nat)
    requires WellFormed(packet[..], options) && option != END && |optionData| < 256
    requires EndAt(packet[..], options) + |optionData| + 2 < packet.Length
    modifies packet
    ensures packet[..] == Extended(old(packet[..]), options, Entry(option, optionData))
    ensures WellFormed(packet[..], options)
    ensures Entries(packet[..], options) == Entries(old(packet[..]), options) + [Entry(option, optionData)]
    ensures EndAt(packet[..], options) == EndAt(old(packet[..]), options) + 2 + |optionData|
    ensures added == U8(2 + |optionData|)
  {
    var at := options;
    while packet[at] != END
      invariant options <= at < packet.Length && WellFormed(packet[..], at)
      invariant EndAt(packet[..], at) == EndAt(packet[..], options)
      decreases packet.Length - at
    {
      at := at + packet[at + 1] + 2;
    }
    ghost var before := packet[..];
    PutEntry(packet, at, option, optionData);
    assert packet[..] == Extended(before, options, Entry(option, optionData));
    ExtendedEntries(before, options, Entry(option, optionData));
    added := U8(2 + |optionData|);
  }

  /** Looks for the first entry with a code. */
  method GetOption(packet: array<byte>, options: nat, option: byte) returns (r: Option<seq<byte>>)
    requires WellFormed(packet[..], options) && option != END
    ensures r == Lookup(Entries(packet[..], options), option)
  {
    var at := options;
    while packet[at] != END
      invariant options <= at < packet.Length && WellFormed(packet[..], at)
      invariant Lookup(Entries(packet[..], at), option) == Lookup(Entries(packet[..], options), option)
      decreases packet.Length - at
    {
      if packet[at] == option {
        return Some(packet[at + 2..at + 2 + packet[at + 1]]);
      }
      at := at + packet[at + 1] + 2;
    }
    return None;
  }
}
