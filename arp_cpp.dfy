// The ARP layer of the C++ rewrite (c++/net/ARP.c): the same table, fewer
// header checks, and a reply assembled field by field.
module CppArp {
  import opened Bytes
  import opened Resources
  import opened Arp
  import LibArp

  /** ARP_WriteHeader as written: COPY_ARRAY(6, ARP->SenderIP, IP_OWN) copies
      six bytes into the four-byte SenderIP. The last two are read past the
      end of the four-byte list IP_OWN (shown as junk) and land on the first
      two bytes of TargetMAC, which was written just before. */
  function WrittenAsWritten(operation: U16, targetMac: MacAddress, targetIp: Address, junk: seq<Byte>): (h: Header)
    requires |junk| == 2
    ensures h.targetMac[2..] == targetMac[2..] && h.targetMac[..2] == junk
  {
    Written(operation, junk + targetMac[2..], targetIp)
  }

  /** As written, a generated request is not addressed to the broadcast MAC
      unless the two bytes read past IP_OWN both happen to be 0xFF. */
  lemma RequestNotBroadcast(destinationIp: Address, junk: seq<Byte>)
    requires |junk| == 2 && junk != [0xFF, 0xFF]
    ensures WrittenAsWritten(Arp.OpRequest, BroadcastMAC, destinationIp, junk).targetMac != BroadcastMAC
  {
    var t := WrittenAsWritten(Arp.OpRequest, BroadcastMAC, destinationIp, junk).targetMac;
    assert t[..2] == junk && BroadcastMAC[..2] == [0xFF, 0xFF];
  }

  /** ARP_WriteHeader as intended: four bytes of IP_OWN into SenderIP. It then
      writes the same header as the C stack. */
  method WriteHeader(frame: array<Byte>, off: nat, operation: U16, targetMac: MacAddress, targetIp: Address)
    returns (n: nat)
    requires off + HeaderLen <= frame.Length
    modifies frame
    ensures n == HeaderLen
    ensures frame[..] == Splice(old(frame[..]), off, Encode(Written(operation, targetMac, targetIp)))
  {
    Store(frame, off, Encode(Written(operation, targetMac, targetIp)));
    n := HeaderLen;
  }

  /** The reply made field by field: operation, target and sender replaced,
      the hardware and protocol fields left as they were. */
  function Swapped(h: Header): Header
  {
    h.(operation := OpReply, targetMac := h.senderMac, targetIp := h.senderIp,
       senderMac := OwnMAC, senderIp := OwnIP)
  }

  /** ARP_ProcessPacket: no length or header checks, only TargetIP. A request
      is answered field by field and reflected; a reply from an on-link sender
      is learned exactly as in the C stack. */
  method ProcessPacket(frame: array<Byte>, off: nat, table: Table) returns (reflect: bool)
    requires off + HeaderLen <= frame.Length
    requires table.Valid()
    modifies frame, table, table.entries
    ensures table.Valid()
    ensures var h := Parse(old(frame[off..off + HeaderLen]));
      && reflect == (h.targetIp == OwnIP && h.operation == OpRequest)
      && frame[..] == (if reflect then Splice(old(frame[..]), off, Encode(Swapped(h))) else old(frame[..]))
      && if h.targetIp == OwnIP && h.operation == OpReply && CompareNet(h.senderIp, OwnIP)
         then table.entries[..] == Learned(old(table.entries[..]), old(table.writePosition), GetHost(h.senderIp), h.senderMac)
           && table.writePosition == LearnedPosition(old(table.entries[..]), old(table.writePosition), GetHost(h.senderIp))
         else table.entries[..] == old(table.entries[..]) && table.writePosition == old(table.writePosition)
  {
    var h := Parse(frame[off..off + HeaderLen]);
    if h.targetIp != OwnIP {
      return false;
    }
    if h.operation == OpRequest {
      // The fields are disjoint and their new values were read into h
      // before any of them is written, so the writes are made in the order
      // of the fields in the header.
      ghost var before := frame[..];
      Store(frame, off + 6, Be16Bytes(OpReply));
      Store(frame, off + 8, OwnMAC);
      Store(frame, off + 14, OwnIP);
      Store(frame, off + 18, h.senderMac);
      Store(frame, off + 24, h.senderIp);
      FieldWrites(before, off, h);
      return true;
    } else if h.operation == OpReply {
      if !CompareNet(h.senderIp, OwnIP) {
        return false;
      }
      table.Learn(GetHost(h.senderIp), h.senderMac);
      return false;
    }
    return false;
  }

  /** The five field writes of a reply together write the swapped header. */
  lemma FieldWrites(before: seq<Byte>, off: nat, h: Header)
    requires off + HeaderLen <= |before| && h == Parse(before[off..off + HeaderLen])
    ensures Splice(Splice(Splice(Splice(Splice(before,
              off + 6, Be16Bytes(OpReply)), off + 8, OwnMAC), off + 14, OwnIP),
              off + 18, h.senderMac), off + 24, h.senderIp)
            == Splice(before, off, Encode(Swapped(h)))
  {
    var b := before[off..off + HeaderLen];
    EncodeParse(b);
    var fixed := Be16Bytes(h.hardwareType) + Be16Bytes(h.protocolType) + [h.hlen, h.plen];
    var tail := Be16Bytes(h.operation) + h.senderMac + h.senderIp + h.targetMac + h.targetIp;
    assert Encode(h) == fixed + tail;
    assert b[..6] == fixed;
    var op := Be16Bytes(OpReply);
    assert before[off..off + 6] == fixed;
    SpliceSame(before, off, 6);
    assert Splice(before, off, fixed) == before;
    assert Encode(Swapped(h)) == fixed + op + OwnMAC + OwnIP + h.senderMac + h.senderIp;
    SpliceAdjacent(before, off, fixed, op);
    SpliceAdjacent(before, off, fixed + op, OwnMAC);
    SpliceAdjacent(before, off, fixed + op + OwnMAC, OwnIP);
    SpliceAdjacent(before, off, fixed + op + OwnMAC + OwnIP, h.senderMac);
    SpliceAdjacent(before, off, fixed + op + OwnMAC + OwnIP + h.senderMac, h.senderIp);
  }

  /** ARP_GenerateRequest: after the broadcast Ethernet header that
      Ethernet_GenerateBroadcast wrote (offset is its uint8_t result), a
      request for destinationIp addressed to the broadcast MAC. */
  method GenerateRequest(frame: array<Byte>, offset: Byte, destinationIp: Address) returns (n: Byte)
    requires offset + HeaderLen <= frame.Length
    modifies frame
    ensures n == (offset + HeaderLen) % 0x100
    ensures frame[..] == Splice(old(frame[..]), offset, Encode(Written(OpRequest, BroadcastMAC, destinationIp)))
  {
    var len := WriteHeader(frame, offset, OpRequest, BroadcastMAC, destinationIp);
    n := (offset + len) % 0x100;
  }

  /** For every request the C stack accepts, both implementations write the
      same reply. */
  lemma RepliesAgree(h: Header, length: U16)
    requires LibArp.Accepted(h, length) && h.operation == OpRequest
    ensures Encode(ReplyTo(h)) == Encode(Swapped(h))
  {
  }
}
