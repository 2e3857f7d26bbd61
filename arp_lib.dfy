// The ARP layer of the C stack (Lib/ARP.c): answers requests for the
// station's address in place and learns the addresses in replies.
module LibArp {
  import opened Bytes
  import opened Resources
  import opened Arp

  /** The checks ARP_ProcessPacket makes before it looks at the operation:
      an Ethernet/IPv4 ARP header of exactly 28 bytes asking about the station. */
  predicate Accepted(h: Header, length: U16)
  {
    length == HeaderLen && h.hardwareType == HardwareEthernet && h.protocolType == ProtocolIPv4
    && h.hlen == 6 && h.plen == 4 && h.targetIp == OwnIP
  }

  /** ARP_WriteHeader: writes a whole header with the station as sender and
      returns its size. */
  method WriteHeader(frame: array<Byte>, off: nat, operation: U16, targetMac: MacAddress, targetIp: Address)
    returns (n: nat)
    requires off + HeaderLen <= frame.Length
    modifies frame
    ensures n == HeaderLen
    ensures frame[..] == Splice(old(frame[..]), off, Encode(Written(operation, targetMac, targetIp)))
  {
    Store(frame, off, Encode(Written(operation, targetMac, targetIp)));
    n := HeaderLen;
  }

  /** ARP_ProcessPacket. A request for the station is turned into the reply in
      place and reflected. A reply from an on-link sender is learned in the
      table; replies are never reflected. Everything else is dropped
      unchanged. The sender fields are read before the header is rewritten,
      so the aliasing of target and sender in ARP_WriteHeader is harmless. */
  method ProcessPacket(frame: array<Byte>, off: nat, length: U16, table: Table) returns (reflect: bool)
    requires off + HeaderLen <= frame.Length
    requires table.Valid()
    modifies frame, table, table.entries
    ensures table.Valid()
    ensures var h := Parse(old(frame[off..off + HeaderLen]));
      && reflect == (Accepted(h, length) && h.operation == OpRequest)
      && frame[..] == (if reflect then Splice(old(frame[..]), off, Encode(ReplyTo(h))) else old(frame[..]))
      && if Accepted(h, length) && h.operation == OpReply && CompareNet(h.senderIp, OwnIP)
         then table.entries[..] == Learned(old(table.entries[..]), old(table.writePosition), GetHost(h.senderIp), h.senderMac)
           && table.writePosition == LearnedPosition(old(table.entries[..]), old(table.writePosition), GetHost(h.senderIp))
         else table.entries[..] == old(table.entries[..]) && table.writePosition == old(table.writePosition)
  {
    var h := Parse(frame[off..off + HeaderLen]);
    if length != HeaderLen || h.hardwareType != HardwareEthernet || h.protocolType != ProtocolIPv4
       || h.hlen != 6 || h.plen != 4 {
      return false;
    }
    if h.targetIp != OwnIP {
      return false;
    }
    if h.operation == OpRequest {
      var _ := WriteHeader(frame, off, OpReply, h.senderMac, h.senderIp);
      return true;
    } else if h.operation == OpReply {
      if !CompareNet(h.senderIp, OwnIP) {
        return false;
      }
      table.Learn(GetHost(h.senderIp), h.senderMac);
      return false;
    }
    return false;
  }

  /** ARP_GenerateBroadcastRequest: after the Ethernet header that
      Ethernet_GenerateBroadcastReply wrote (offset is its uint8_t result),
      a request for destinationIp addressed to the broadcast MAC. The sum is
      a uint8_t. */
  method GenerateBroadcastRequest(frame: array<Byte>, offset: Byte, destinationIp: Address) returns (n: Byte)
    requires offset + HeaderLen <= frame.Length
    modifies frame
    ensures n == (offset + HeaderLen) % 0x100
    ensures frame[..] == Splice(old(frame[..]), offset, Encode(Written(OpRequest, BroadcastMAC, destinationIp)))
  {
    var len := WriteHeader(frame, offset, OpRequest, BroadcastMAC, destinationIp);
    n := (offset + len) % 0x100;
  }

  /** The reply an asker receives names the asker as target, carries the
      station's addresses as sender, and is itself not answered again: parsed
      back, it is a reply, not a request. */
  lemma ReplyReadsBack(h: Header)
    ensures var r := Parse(Encode(ReplyTo(h)));
      r.operation == OpReply && r.targetMac == h.senderMac && r.targetIp == h.senderIp
      && r.senderMac == OwnMAC && r.senderIp == OwnIP
  {
    ParseEncode(ReplyTo(h));
  }
}
