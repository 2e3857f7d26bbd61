// The IPv4 layer of the C stack (Lib/IP.c): the 20-byte header of RFC 791
// section 3.1 without options, sealed with the RFC 1071 checksum; the
// validation of received datagrams and their reflection to the sender.
module LibIp {
  import opened Bytes
  import opened Resources
  import opened Wrappers
  import Bits
  import Checksum
  import Rules
  import LibIcmp
  import LibUdp

  /** sizeof(IP_Header_t). */
  const HeaderLen: nat := 20

  /** IP_VERSION_IHL: version 4, five 32-bit words of header. */
  const VersionIhl: Byte := 0x45

  /** DEFAULT_TTL. */
  const DefaultTtl: Byte := 64

  /** IP_FLAGS_DONTFRAGMENT. */
  const DontFragment: U16 := 0x4000

  /** IP_PROTOCOL_ICMP and IP_PROTOCOL_UDP. */
  const ProtocolIcmp: Byte := 1
  const ProtocolUdp: Byte := 17

  /** The header IP_WriteHeader writes before the checksum is computed:
      Version/IHL 0x45, TOS 0, Length 20 + payload (a 16-bit sum), ID 0,
      Don't Fragment with offset 0, TTL 64, the protocol, checksum 0, the
      station as source and the given destination. */
  function Unsealed(protocol: Byte, destination: Address, payloadLength: U16): (h: seq<Byte>)
    ensures |h| == HeaderLen && h[10] == 0 && h[11] == 0
  {
    [VersionIhl, 0] + Be16Bytes((HeaderLen + payloadLength) % 0x1_0000) + [0, 0]
      + Be16Bytes(DontFragment) + [DefaultTtl, protocol, 0, 0] + OwnIP + destination
  }

  /** The header with IP_Checksum of the unsealed header stored in the
      checksum field. Recomputing the checksum over it gives 0, which is
      what a receiver verifies (RFC 791 section 3.1, RFC 1071). */
  function Header(protocol: Byte, destination: Address, payloadLength: U16): (h: seq<Byte>)
    ensures |h| == HeaderLen
    ensures Checksum.ChecksumOf(h) == 0
  {
    var u := Unsealed(protocol, destination, payloadLength);
    Checksum.Seal(u, 10);
    Splice(u, 10, Le16Bytes(Checksum.ChecksumOf(u)))
  }

  /** FlagsFragment & 0x3FFF: the More Fragments bit and the fragment offset. */
  function FragmentBits(flagsFragment: U16): (r: nat)
    ensures r == flagsFragment % 0x4000
  {
    Bits.Pow2Values();
    Bits.AndLowMask(flagsFragment, 14);
    Bits.And(flagsFragment, 0x3FFF)
  }

  /** The fields of a header as a receiver reads them. */
  datatype Fields = Fields(
    versionIhl: Byte, length: U16, flagsFragment: U16, ttl: Byte, protocol: Byte,
    source: Address, destination: Address)

  function Read(h: seq<Byte>): Fields
    requires |h| >= HeaderLen
  {
    Fields(h[0], Be16(h, 2), Be16(h, 6), h[8], h[9], h[12..16], h[16..20])
  }

  /** Reading back a written header: version 0x45, the total length, no
      fragmentation, TTL 64, the protocol, the station as source and the
      given destination. */
  lemma ReadHeader(protocol: Byte, destination: Address, payloadLength: U16)
    ensures var f := Read(Header(protocol, destination, payloadLength));
      && f.versionIhl == VersionIhl && f.length == (HeaderLen + payloadLength) % 0x1_0000
      && f.flagsFragment == DontFragment && FragmentBits(f.flagsFragment) == 0
      && f.ttl == DefaultTtl && f.protocol == protocol
      && f.source == OwnIP && f.destination == destination
  {
    var u := Unsealed(protocol, destination, payloadLength);
    var h := Header(protocol, destination, payloadLength);
    ReadUnsealed(protocol, destination, payloadLength);
    assert h[0] == u[0] && h[2] == u[2] && h[3] == u[3] && h[6] == u[6] && h[7] == u[7];
    assert h[8] == u[8] && h[9] == u[9];
    SpliceOutside(u, 10, Le16Bytes(Checksum.ChecksumOf(u)), 12, 16);
    SpliceOutside(u, 10, Le16Bytes(Checksum.ChecksumOf(u)), 16, 20);
  }

  /** The fields of the header before the checksum is stored. */
  lemma ReadUnsealed(protocol: Byte, destination: Address, payloadLength: U16)
    ensures Read(Unsealed(protocol, destination, payloadLength))
            == Fields(VersionIhl, (HeaderLen + payloadLength) % 0x1_0000, DontFragment, DefaultTtl, protocol,
                      OwnIP, destination)
  {
    var u := Unsealed(protocol, destination, payloadLength);
    assert u[2..4] == Be16Bytes((HeaderLen + payloadLength) % 0x1_0000);
    assert u[6..8] == Be16Bytes(DontFragment);
    assert u[12..16] == OwnIP && u[16..20] == destination;
  }

  /** IP_WriteHeader: writes the header with checksum 0, computes IP_Checksum
      over it and stores the result; returns the header size. The
      destination is a value read before the source field is overwritten,
      so passing the received source address is safe. */
  method WriteHeader(frame: array<Byte>, off: nat, protocol: Byte, destination: Address, payloadLength: U16)
    returns (n: nat)
    requires off + HeaderLen <= frame.Length
    modifies frame
    ensures n == HeaderLen
    ensures frame[..] == Splice(old(frame[..]), off, Header(protocol, destination, payloadLength))
  {
    var u := Unsealed(protocol, destination, payloadLength);
    Store(frame, off, u);
    assert frame[off..off + HeaderLen] == u;
    var checksum := Checksum.Compute(frame, off, HeaderLen);
    Store(frame, off + 10, Le16Bytes(checksum));
    SpliceNested(old(frame[..]), off, u, 10, Le16Bytes(checksum));
    n := HeaderLen;
  }

  /** Whether IP_ProcessPacket takes the datagram at off of a buffer s
      holding length bytes of it: Version/IHL 0x45, no More Fragments bit and
      fragment offset 0, a Length field within length, addressed to the
      station or to its subnet broadcast, and carrying ICMP or UDP. */
  predicate Accepted(s: seq<Byte>, off: nat, length: U16)
    requires off + HeaderLen <= |s|
  {
    var f := Read(s[off..off + HeaderLen]);
    && f.versionIhl == VersionIhl && FragmentBits(f.flagsFragment) == 0 && f.length <= length
    && (f.destination == OwnIP || f.destination == Broadcast(OwnIP))
    && (f.protocol == ProtocolIcmp || f.protocol == ProtocolUdp)
  }

  /** The payload length handed to ICMP and UDP: the Length field less the
      header, as a uint16_t. */
  function PayloadLength(s: seq<Byte>, off: nat): (p: U16)
    requires off + HeaderLen <= |s|
    ensures Be16(s, off + 2) >= HeaderLen ==> p == Be16(s, off + 2) - HeaderLen
    ensures Be16(s, off + 2) < HeaderLen ==> p == Be16(s, off + 2) + 0x1_0000 - HeaderLen
    ensures (HeaderLen + p) % 0x1_0000 == Be16(s, off + 2)
  {
    LengthWrapsBack(Be16(s, off + 2));
    (Be16(s, off + 2) - HeaderLen) % 0x1_0000
  }

  /** The 16-bit Length field of a header written for the payload length
      of a received header is the received Length field. */
  lemma LengthWrapsBack(x: U16)
    ensures (HeaderLen + (x - HeaderLen) % 0x1_0000) % 0x1_0000 == x
  {
    if x < HeaderLen {
      assert (x - HeaderLen) % 0x1_0000 == x + 0x1_0000 - HeaderLen;
    }
  }

  /** The payload an accepted datagram declares lies within the buffer as far
      as the switching protocol and SNTP read it. */
  lemma PayloadReadable(s: seq<Byte>, off: nat, length: U16)
    requires off + length <= |s| && HeaderLen + LibUdp.HeaderLen <= length
    requires Be16(s, off + 2) <= length
    ensures Rules.Readable(|s|, off + HeaderLen + LibUdp.HeaderLen, LibUdp.Available(PayloadLength(s, off)))
  {
  }

  /** Whether IP_ProcessPacket answers the accepted datagram at off: an ICMP
      echo request with a non-zero payload length (ICMP_ProcessPacket returns
      that length), or a UDP query the rule engine answers. */
  predicate Reflects(s: seq<Byte>, off: nat, length: U16, states: seq<Rules.RuleState>)
    requires off + HeaderLen + LibUdp.HeaderLen <= |s|
  {
    && Accepted(s, off, length)
    && var f := Read(s[off..off + HeaderLen]);
       var p := PayloadLength(s, off);
       if f.protocol == ProtocolIcmp then LibIcmp.IsEchoRequest(s[off + HeaderLen..off + HeaderLen + 4]) && p != 0
       else LibUdp.Answers(s, off + HeaderLen, p, states)
  }

  /** The buffer after the layer above IP has processed an accepted
      datagram: an ICMP echo request is turned into the reply (even when its
      zero payload length keeps it from being sent), a UDP query the rule
      engine answers is answered; anything else is left as it is. */
  function Answer(s: seq<Byte>, off: nat, length: U16, states: seq<Rules.RuleState>): (r: seq<Byte>)
    requires HeaderLen + LibUdp.HeaderLen <= length && off + length <= |s|
    ensures |r| == |s|
  {
    if !Accepted(s, off, length) then s
    else
      var f := Read(s[off..off + HeaderLen]);
      var p := PayloadLength(s, off);
      var data := off + HeaderLen;
      if f.protocol == ProtocolIcmp then
        var h := s[data..data + 4];
        if LibIcmp.IsEchoRequest(h) then Splice(s, data, LibIcmp.Replied(h)) else s
      else if LibUdp.Answers(s, data, p, states) then
        PayloadReadable(s, off, length);
        LibUdp.Reflected(s, data, Rules.ToBool(states[Be16(s, data + 2)].value))
      else s
  }

  /** The buffer after IP_ProcessPacket: the answer of the layer above and,
      when it is sent, a new header back to the datagram's source with the
      same protocol and payload length. */
  function Processed(s: seq<Byte>, off: nat, length: U16, states: seq<Rules.RuleState>): (r: seq<Byte>)
    requires HeaderLen + LibUdp.HeaderLen <= length && off + length <= |s|
    ensures |r| == |s|
    ensures !Accepted(s, off, length) ==> r == s
    ensures Reflects(s, off, length, states) ==>
              var f := Read(s[off..off + HeaderLen]);
              r[off..off + HeaderLen] == Header(f.protocol, f.source, PayloadLength(s, off))
  {
    var a := Answer(s, off, length, states);
    if Reflects(s, off, length, states) then
      var f := Read(s[off..off + HeaderLen]);
      var h := Header(f.protocol, f.source, PayloadLength(s, off));
      SpliceRead(a, off, h);
      Splice(a, off, h)
    else a
  }

  /** The rule states after IP_ProcessPacket: only an accepted UDP datagram
      reaches the rule engine. */
  function StatesAfter(rules: seq<Rules.Rule>, states: seq<Rules.RuleState>, s: seq<Byte>, off: nat, length: U16)
    : (r: seq<Rules.RuleState>)
    requires |states| == |rules|
    requires HeaderLen + LibUdp.HeaderLen <= length && off + length <= |s|
    ensures |r| == |states|
    ensures !Accepted(s, off, length) || Read(s[off..off + HeaderLen]).protocol != ProtocolUdp ==> r == states
  {
    var f := Read(s[off..off + HeaderLen]);
    if Accepted(s, off, length) && f.protocol == ProtocolUdp then
      PayloadReadable(s, off, length);
      LibUdp.StatesAfter(rules, states, s, off + HeaderLen, f.source, PayloadLength(s, off))
    else states
  }

  /** IP_ProcessPacket for a datagram of length bytes (at least the 28 of a
      header with a UDP header, as the Ethernet layer checked) at off. An
      accepted ICMP datagram goes to ICMP_ProcessPacket, a UDP datagram to
      UDP_ProcessPacket with the source address; when the layer above answers
      (ICMP returns a non-zero length), the header is rewritten to the
      sender with the same protocol and the payload length, and true is
      returned. The protocol and the source address are read before the layer
      above runs; it writes only the payload. */
  method ProcessPacket(frame: array<Byte>, off: nat, length: U16, engine: Rules.Engine)
    returns (reflect: bool, tcnt1: Option<U16>)
    requires engine.Valid()
    requires HeaderLen + LibUdp.HeaderLen <= length && off + length <= frame.Length
    modifies frame, engine.state
    ensures reflect == Reflects(old(frame[..]), off, length, old(engine.state[..]))
    ensures frame[..] == Processed(old(frame[..]), off, length, old(engine.state[..]))
    ensures engine.state[..] == StatesAfter(engine.rules, old(engine.state[..]), old(frame[..]), off, length)
  {
    reflect, tcnt1 := false, None;
    ghost var s := frame[..];
    var f := Read(frame[off..off + HeaderLen]);
    if f.versionIhl != VersionIhl || FragmentBits(f.flagsFragment) != 0 || f.length > length {
      return;
    }
    if f.destination != OwnIP && f.destination != Broadcast(OwnIP) {
      return;
    }
    var payload := (f.length - HeaderLen) % 0x1_0000;
    var data := off + HeaderLen;
    assert payload == PayloadLength(s, off);
    if f.protocol == ProtocolIcmp {
      var r := LibIcmp.ProcessPacket(frame, data, payload);
      reflect := r != 0;
    } else if f.protocol == ProtocolUdp {
      PayloadReadable(s, off, length);
      reflect, tcnt1 := LibUdp.ProcessPacket(frame, data, f.source, payload, engine);
    } else {
      return;
    }
    assert frame[..] == Answer(s, off, length, old(engine.state[..]));
    if reflect {
      var _ := WriteHeader(frame, off, f.protocol, f.source, payload);
    }
  }

  /** An answered datagram goes back to where it came from: the new header
      is a valid header (its checksum verifies) of the same protocol from the
      station to the received source address, and the payload after it is
      the answer of ICMP or UDP. */
  lemma ReflectedToSender(s: seq<Byte>, off: nat, length: U16, states: seq<Rules.RuleState>)
    requires HeaderLen + LibUdp.HeaderLen <= length && off + length <= |s|
    requires Reflects(s, off, length, states)
    ensures var f := Read(s[off..off + HeaderLen]);
            var r := Processed(s, off, length, states);
            var g := Read(r[off..off + HeaderLen]);
            && g.versionIhl == VersionIhl && FragmentBits(g.flagsFragment) == 0
            && g.protocol == f.protocol && g.source == OwnIP && g.destination == f.source
            && g.length == Be16(s, off + 2)
            && Checksum.ChecksumOf(r[off..off + HeaderLen]) == 0
  {
    var f := Read(s[off..off + HeaderLen]);
    var h := Processed(s, off, length, states)[off..off + HeaderLen];
    ReflectedHeader(h, f.protocol, f.source, PayloadLength(s, off), Be16(s, off + 2));
  }

  /** A header whose Length field is x, read back. */
  lemma ReflectedHeader(h: seq<Byte>, protocol: Byte, destination: Address, p: U16, x: U16)
    requires h == Header(protocol, destination, p) && (HeaderLen + p) % 0x1_0000 == x
    ensures var g := Read(h);
            && g.versionIhl == VersionIhl && FragmentBits(g.flagsFragment) == 0
            && g.protocol == protocol && g.source == OwnIP && g.destination == destination
            && g.length == x
            && Checksum.ChecksumOf(h) == 0
  {
    ReadHeader(protocol, destination, p);
  }

  /** The next hop IP_GenerateUnicast resolves: the destination itself when
      it is on the station's subnet, the router otherwise. */
  function NextHop(destination: Address): (hop: Address)
    ensures hop == destination || hop == RouterIP
    ensures CompareNet(hop, OwnIP)
  {
    CompareNetPrefix(OwnIP, destination);
    CompareNetPrefix(RouterIP, OwnIP);
    CompareNetPrefix(destination, OwnIP);
    if CompareNet(OwnIP, destination) then destination else RouterIP
  }

  /** IP_GenerateUnicast. offset is what Ethernet_GenerateUnicast returned for
      the next hop (not part of this model): non-positive values (no
      Ethernet header written, or an ARP request instead) are passed
      through; otherwise the header for the real destination follows the
      Ethernet header and the int8_t sum is returned. */
  method GenerateUnicast(frame: array<Byte>, protocol: Byte, destination: Address, payloadLength: Byte, offset: Int8)
    returns (hop: Address, r: Int8)
    requires offset > 0 ==> offset + HeaderLen <= frame.Length
    modifies frame
    ensures hop == NextHop(destination)
    ensures offset <= 0 ==> r == offset && frame[..] == old(frame[..])
    ensures offset > 0 ==>
              && r == ToInt8(offset + HeaderLen)
              && frame[..] == Splice(old(frame[..]), offset, Header(protocol, destination, payloadLength))
  {
    hop := destination;
    if !CompareNet(OwnIP, destination) {
      hop := RouterIP;
    }
    if offset <= 0 {
      return hop, offset;
    }
    var n := WriteHeader(frame, offset, protocol, destination, payloadLength);
    r := ToInt8(offset + n);
  }

  /** IP_GenerateBroadcast: after the broadcast Ethernet header (offset is
      the uint8_t result of Ethernet_GenerateBroadcast, not part of this
      model), a header to the subnet's broadcast address; the sum is a
      uint8_t. */
  method GenerateBroadcast(frame: array<Byte>, protocol: Byte, payloadLength: Byte, offset: Byte)
    returns (r: Byte)
    requires offset + HeaderLen <= frame.Length
    modifies frame
    ensures r == (offset + HeaderLen) % 0x100
    ensures frame[..] == Splice(old(frame[..]), offset, Header(protocol, Broadcast(OwnIP), payloadLength))
  {
    var n := WriteHeader(frame, offset, protocol, Broadcast(OwnIP), payloadLength);
    r := (offset + n) % 0x100;
  }
}
