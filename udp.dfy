// UDP (Lib/UDP.c, RFC 768): the 8-byte header, the dispatch of the switching
// protocol's datagrams to the rule engine, and the headers of generated
// datagrams. The checksum is always written as 0 ("not computed"). Port
// fields are kept as the network-order values of their two bytes; the
// protocol's port UDP_PORT_AUTOMAT is compared with the field as stored.
module LibUdp {
  import opened Bytes
  import opened Resources
  import opened Wrappers
  import Rules
  import LibAscii

  /** sizeof(UDP_Header_t). */
  const HeaderLen: nat := 8

  /** The header UDP_WriteHeader writes: the two ports, the length of header
      and payload, and a zero checksum. */
  function Header(sourcePort: U16, destinationPort: U16, payloadLength: Byte): (h: seq<Byte>)
    ensures |h| == HeaderLen
    ensures Be16(h, 0) == sourcePort && Be16(h, 2) == destinationPort
    ensures Be16(h, 4) == HeaderLen + payloadLength && Be16(h, 6) == 0
  {
    Be16Bytes(sourcePort) + Be16Bytes(destinationPort) + Be16Bytes(HeaderLen + payloadLength) + [0, 0]
  }

  /** UDP_WriteHeader. */
  method WriteHeader(frame: array<Byte>, off: nat, sourcePort: U16, destinationPort: U16, payloadLength: Byte)
    returns (n: nat)
    requires off + HeaderLen <= frame.Length
    modifies frame
    ensures n == HeaderLen
    ensures frame[..] == Splice(old(frame[..]), off, Header(sourcePort, destinationPort, payloadLength))
  {
    Store(frame, off, Header(sourcePort, destinationPort, payloadLength));
    n := HeaderLen;
  }

  /** The payload length UDP_ProcessPacket hands on: the IP payload length
      less the header, as a uint16_t. */
  function Available(length: U16): (r: U16)
    ensures length >= HeaderLen ==> r == length - HeaderLen
    ensures length < HeaderLen ==> r >= 0x1_0000 - HeaderLen
  {
    (length - HeaderLen) % 0x1_0000
  }

  /** The datagrams UDP_ProcessPacket answers: the Length field fits, the
      source port is the protocol's (a query from another switch), and the
      rule engine answers it. */
  predicate Answers(s: seq<Byte>, off: nat, length: U16, states: seq<Rules.RuleState>)
    requires off + HeaderLen <= |s|
  {
    var destinationPort := Be16(s, off + 2);
    Be16(s, off + 4) <= length && Be16(s, off) == UdpPort
    && destinationPort < |states| && states[destinationPort].value > Rules.Unknown
    && Available(length) == 1
  }

  /** The datagram reflected as the answer to a query: the payload byte
      replaced by the value's character, and the header rewritten with the
      two ports exchanged and a one-byte payload. */
  function Reflected(s: seq<Byte>, off: nat, value: bool): (r: seq<Byte>)
    requires off + HeaderLen < |s|
    ensures |r| == |s|
    ensures Be16(r, off) == Be16(s, off + 2) && Be16(r, off + 2) == Be16(s, off)
    ensures Be16(r, off + 4) == HeaderLen + 1 && r[off + HeaderLen] == LibAscii.Encode(value)
  {
    Splice(s[off + HeaderLen := LibAscii.Encode(value)], off, Header(Be16(s, off + 2), Be16(s, off), 1))
  }

  /** The rule states after the datagram s at off: an answer (destination
      port UDP_PORT_AUTOMAT, source port not) whose Length field fits goes to
      the first remote rule for its source address and port; nothing else
      changes a state. */
  function StatesAfter(rules: seq<Rules.Rule>, states: seq<Rules.RuleState>, s: seq<Byte>, off: nat,
                       sourceIp: Address, length: U16): (r: seq<Rules.RuleState>)
    requires |states| == |rules| && off + HeaderLen <= |s|
    requires Rules.Readable(|s|, off + HeaderLen, Available(length))
    ensures |r| == |states|
    ensures forall j :: 0 <= j < |r| && r[j] != states[j] ==>
              j == Rules.FirstRemote(rules, sourceIp, Be16(s, off)) && Be16(s, off + 2) == UdpPort
  {
    var sourcePort, destinationPort := Be16(s, off), Be16(s, off + 2);
    var k := Rules.FirstRemote(rules, sourceIp, sourcePort);
    if Be16(s, off + 4) <= length && sourcePort != UdpPort && destinationPort == UdpPort && k < |rules| then
      states[k := Rules.Answered(rules[k], states[k], s, off + HeaderLen, Available(length))]
    else states
  }

  /** UDP_ProcessPacket, with sourceIP the IP source address. A query (source
      port UDP_PORT_AUTOMAT) goes to UDP_Callback_Request; when that answers,
      the header is rewritten with the ports exchanged and the datagram is
      reflected. An answer (destination port UDP_PORT_AUTOMAT) goes to
      UDP_Callback_Reply. A Length field beyond the IP payload drops the
      datagram. TCNT1 is returned as an accepted SNTP answer set it. */
  method ProcessPacket(frame: array<Byte>, off: nat, sourceIp: Address, length: U16, engine: Rules.Engine)
    returns (reflect: bool, tcnt1: Option<U16>)
    requires engine.Valid()
    requires off + HeaderLen <= frame.Length
    requires Rules.Readable(frame.Length, off + HeaderLen, Available(length))
    modifies frame, engine.state
    ensures var s := old(frame[..]);
            && (reflect <==> Answers(s, off, length, old(engine.state[..])))
            && frame[..] == if reflect then Reflected(s, off, Rules.ToBool(old(engine.state[Be16(s, off + 2)].value)))
                            else s
    ensures engine.state[..] == StatesAfter(engine.rules, old(engine.state[..]), old(frame[..]), off, sourceIp, length)
  {
    reflect, tcnt1 := false, None;
    var sourcePort, destinationPort := Be16(frame[..], off), Be16(frame[..], off + 2);
    if Be16(frame[..], off + 4) > length {
      return;
    }
    var available := Available(length);
    if sourcePort == UdpPort {
      var ok := engine.CallbackRequest(frame, off + HeaderLen, destinationPort, available);
      if ok {
        var _ := WriteHeader(frame, off, destinationPort, sourcePort, available % 0x100);
        reflect := true;
      }
    } else if destinationPort == UdpPort {
      tcnt1 := engine.CallbackReply(frame, off + HeaderLen, sourceIp, sourcePort, available);
    }
  }

  /** The reflected header of an answer is taken for an answer by the
      querying switch: its destination port is UDP_PORT_AUTOMAT, and its
      source port, the rule number, is not. */
  lemma AnswerIsReply(rule: Byte, payloadLength: Byte)
    ensures var h := Header(rule, UdpPort, payloadLength);
            Be16(h, 0) != UdpPort && Be16(h, 2) == UdpPort
  {
  }

  /** The query-answer round trip: when the answer reflected for a query
      with value b reaches the querying switch from sourceIp, the first remote
      rule for that address and the answering rule's number takes the value b,
      marked changed when it differs, and stops its timer; no other rule
      changes. */
  lemma AnswerSetsRemoteRule(rules: seq<Rules.Rule>, states: seq<Rules.RuleState>, q: seq<Byte>, off: nat,
                             sourceIp: Address, b: bool)
    requires |states| == |rules| && off + HeaderLen < |q|
    requires Be16(q, off) == UdpPort && Be16(q, off + 2) != UdpPort
    requires Rules.FirstRemote(rules, sourceIp, Be16(q, off + 2)) < |rules|
    requires rules[Rules.FirstRemote(rules, sourceIp, Be16(q, off + 2))].Remote?
    ensures var k := Rules.FirstRemote(rules, sourceIp, Be16(q, off + 2));
            StatesAfter(rules, states, Reflected(q, off, b), off, sourceIp, HeaderLen + 1)
            == states[k := Rules.RuleState(Rules.TimerOff, Rules.Flagged(states[k].value, b))]
  {
    var k := Rules.FirstRemote(rules, sourceIp, Be16(q, off + 2));
    var r := Reflected(q, off, b);
    assert r[off + HeaderLen := LibAscii.Encode(b)] == r;
    Rules.RemoteAnswer(rules[k], states[k], r, off + HeaderLen, b);
  }

  /** UDP_GenerateRequest. offset is the int8_t IP_GenerateRequest (not part
      of this model) returned: zero or negative is passed through; otherwise
      a query header from UDP_PORT_AUTOMAT follows, and the int8_t offset
      after it is returned. */
  method GenerateRequest(frame: array<Byte>, offset: Int8, destinationPort: U16, payloadLength: U16)
    returns (r: Int8)
    requires offset > 0 ==> offset + HeaderLen <= frame.Length
    modifies frame
    ensures offset <= 0 ==> r == offset && frame[..] == old(frame[..])
    ensures offset > 0 ==> r == ToInt8(offset + HeaderLen)
    ensures offset > 0 ==>
              frame[..] == Splice(old(frame[..]), offset, Header(UdpPort, destinationPort, payloadLength % 0x100))
  {
    if offset <= 0 {
      return offset;
    }
    var n := WriteHeader(frame, offset, UdpPort, destinationPort, payloadLength % 0x100);
    r := ToInt8(offset + n);
  }

  /** A generated query is taken for a query by the switch it is sent to. */
  lemma RequestIsQuery(destinationPort: U16, payloadLength: Byte)
    ensures Be16(Header(UdpPort, destinationPort, payloadLength), 0) == UdpPort
  {
  }

  /** UDP_GenerateBroadcastReply. offset is the uint8_t
      IP_GenerateBroadcastReply (not part of this model) returned; the header
      of an answer to UDP_PORT_AUTOMAT follows it. */
  method GenerateBroadcastReply(frame: array<Byte>, offset: Byte, sourcePort: U16, payloadLength: U16)
    returns (r: Byte)
    requires offset + HeaderLen <= frame.Length
    modifies frame
    ensures r == (offset + HeaderLen) % 0x100
    ensures frame[..] == Splice(old(frame[..]), offset, Header(sourcePort, UdpPort, payloadLength % 0x100))
  {
    var n := WriteHeader(frame, offset, sourcePort, UdpPort, payloadLength % 0x100);
    r := (offset + n) % 0x100;
  }
}
