// The Ethernet II layer of the C stack (Lib/Ethernet.c): frames for the
// station or for everyone are handed to ARP or IPv4 by their EtherType, and an
// answered frame goes back to its sender; generated frames get a header to a
// MAC address from the ARP cache.
module LibEthernet {
  import opened Bytes
  import opened Resources
  import opened Wrappers
  import Arp
  import LibArp
  import LibIp
  import Rules

  /** sizeof(Ethernet_Header_t). */
  const HeaderLen: nat := 14

  /** ETHERTYPE_IPV4 and ETHERTYPE_ARP, as they lie in the frame. */
  const EtherTypeIPv4: U16 := 0x0800
  const EtherTypeArp: U16 := 0x0806

  /** The header Ethernet_GenerateHeader writes: destination, the station as
      source, the EtherType. */
  function Header(destination: MacAddress, etherType: U16): (h: seq<Byte>)
    ensures |h| == HeaderLen
    ensures h[..6] == destination && h[6..12] == OwnMAC && Be16(h, 12) == etherType
  {
    destination + OwnMAC + Be16Bytes(etherType)
  }

  /** Whether Ethernet_ProcessPacket looks at a frame: its destination
      (compared with MAC_compare, a byte-wise comparison) is the station or
      the broadcast address. */
  predicate ForStation(s: seq<Byte>)
    requires |s| >= HeaderLen
  {
    s[..6] == OwnMAC || s[..6] == BroadcastMAC
  }

  /** The frame sent back: its source becomes the destination and the
      station the source; the EtherType and the rest stay. */
  function Returned(s: seq<Byte>): (r: seq<Byte>)
    requires |s| >= HeaderLen
    ensures |r| == |s|
    ensures r[..6] == s[6..12] && r[6..12] == OwnMAC && r[12..] == s[12..]
  {
    Splice(s, 0, s[6..12] + OwnMAC)
  }

  /** Ethernet_ProcessPacket for a frame of length bytes (at least
      PACKET_LEN_MIN, as the caller checked). ARP_ProcessPacket and
      IP_ProcessPacket return a bool that becomes the new length, so an
      answered frame returns 1 + sizeof(Ethernet_Header_t) = 15, with its
      addresses turned back to the sender; anything else returns 0. The
      source address is read after the layer above has run. */
  method ProcessPacket(frame: array<Byte>, length: U16, table: Arp.Table, engine: Rules.Engine)
    returns (r: U16, tcnt1: Option<U16>)
    requires table.Valid() && engine.Valid()
    requires PacketLenMin <= length <= frame.Length
    modifies frame, table, table.entries, engine.state
    ensures table.Valid()
    ensures r == 0 || r == HeaderLen + 1
    ensures var s := old(frame[..]);
            var t := Be16(s, 12);
            !ForStation(s) || (t != EtherTypeArp && t != EtherTypeIPv4) ==>
              && r == 0 && frame[..] == s && engine.state[..] == old(engine.state[..])
              && table.entries[..] == old(table.entries[..]) && table.writePosition == old(table.writePosition)
    ensures var s := old(frame[..]);
            var h := Arp.Parse(s[HeaderLen..HeaderLen + Arp.HeaderLen]);
            var answered := LibArp.Accepted(h, length - HeaderLen) && h.operation == Arp.OpRequest;
            ForStation(s) && Be16(s, 12) == EtherTypeArp ==>
              && (r != 0 <==> answered)
              && frame[..] == (if answered then Returned(Splice(s, HeaderLen, Arp.Encode(Arp.ReplyTo(h)))) else s)
              && engine.state[..] == old(engine.state[..])
              && if LibArp.Accepted(h, length - HeaderLen) && h.operation == Arp.OpReply
                    && CompareNet(h.senderIp, OwnIP) then
                   && table.entries[..] == Arp.Learned(old(table.entries[..]), old(table.writePosition),
                                                        GetHost(h.senderIp), h.senderMac)
                   && table.writePosition == Arp.LearnedPosition(old(table.entries[..]), old(table.writePosition),
                                                                  GetHost(h.senderIp))
                 else table.entries[..] == old(table.entries[..]) && table.writePosition == old(table.writePosition)
    ensures var s := old(frame[..]);
            var n := length - HeaderLen;
            var m := LibIp.Processed(s, HeaderLen, n, old(engine.state[..]));
            ForStation(s) && Be16(s, 12) == EtherTypeIPv4 ==>
              && (r != 0 <==> LibIp.Reflects(s, HeaderLen, n, old(engine.state[..])))
              && frame[..] == (if r != 0 then Returned(m) else m)
              && engine.state[..] == LibIp.StatesAfter(engine.rules, old(engine.state[..]), s, HeaderLen, n)
              && table.entries[..] == old(table.entries[..]) && table.writePosition == old(table.writePosition)
  {
    r, tcnt1 := 0, None;
    if !(frame[..6] == OwnMAC || frame[..6] == BroadcastMAC) {
      return;
    }
    var etherType := Be16(frame[..], 12);
    if etherType == EtherTypeArp {
      r := ProcessArp(frame, length, table);
    } else if etherType == EtherTypeIPv4 {
      r, tcnt1 := ProcessIPv4(frame, length, engine);
    }
  }

  /** The ARP branch of Ethernet_ProcessPacket: ARP_ProcessPacket on the payload, and the
      answer turned back to the sender. */
  method ProcessArp(frame: array<Byte>, length: U16, table: Arp.Table) returns (r: U16)
    requires table.Valid()
    requires PacketLenMin <= length <= frame.Length
    modifies frame, table, table.entries
    ensures table.Valid()
    ensures var s := old(frame[..]);
            var h := Arp.Parse(s[HeaderLen..HeaderLen + Arp.HeaderLen]);
            var answered := LibArp.Accepted(h, length - HeaderLen) && h.operation == Arp.OpRequest;
            && (r == if answered then HeaderLen + 1 else 0)
            && frame[..] == (if answered then Returned(Splice(s, HeaderLen, Arp.Encode(Arp.ReplyTo(h)))) else s)
            && if LibArp.Accepted(h, length - HeaderLen) && h.operation == Arp.OpReply
                  && CompareNet(h.senderIp, OwnIP) then
                 && table.entries[..] == Arp.Learned(old(table.entries[..]), old(table.writePosition),
                                                      GetHost(h.senderIp), h.senderMac)
                 && table.writePosition == Arp.LearnedPosition(old(table.entries[..]), old(table.writePosition),
                                                                GetHost(h.senderIp))
               else table.entries[..] == old(table.entries[..]) && table.writePosition == old(table.writePosition)
  {
    r := 0;
    var reflect := LibArp.ProcessPacket(frame, HeaderLen, length - HeaderLen, table);
    if reflect {
      r := HeaderLen + 1;
      ReturnToSender(frame);
    }
  }

  /** The addresses of an answered frame: its source becomes the destination, the station the
      source. */
  method ReturnToSender(frame: array<Byte>)
    requires HeaderLen <= frame.Length
    modifies frame
    ensures frame[..] == Returned(old(frame[..]))
  {
    Store(frame, 0, frame[6..12] + OwnMAC);
  }

  /** The IPv4 branch of Ethernet_ProcessPacket: IP_ProcessPacket on the payload, and an
      answer turned back to the sender. */
  method ProcessIPv4(frame: array<Byte>, length: U16, engine: Rules.Engine) returns (r: U16, tcnt1: Option<U16>)
    requires engine.Valid()
    requires PacketLenMin <= length <= frame.Length
    modifies frame, engine.state
    ensures var s := old(frame[..]);
            var n := length - HeaderLen;
            var m := LibIp.Processed(s, HeaderLen, n, old(engine.state[..]));
            && (r == if LibIp.Reflects(s, HeaderLen, n, old(engine.state[..])) then HeaderLen + 1 else 0)
            && frame[..] == (if r != 0 then Returned(m) else m)
            && engine.state[..] == LibIp.StatesAfter(engine.rules, old(engine.state[..]), s, HeaderLen, n)
  {
    r := 0;
    var reflect;
    reflect, tcnt1 := LibIp.ProcessPacket(frame, HeaderLen, length - HeaderLen, engine);
    if reflect {
      r := HeaderLen + 1;
      ReturnToSender(frame);
    }
  }

  /** Ethernet_GenerateHeader: writes the header at the start of the frame
      and returns its size. */
  method GenerateHeader(frame: array<Byte>, destination: MacAddress, etherType: U16) returns (n: Byte)
    requires HeaderLen <= frame.Length
    modifies frame
    ensures n == HeaderLen
    ensures frame[..] == Splice(old(frame[..]), 0, Header(destination, etherType))
  {
    Store(frame, 0, Header(destination, etherType));
    n := HeaderLen;
  }

  /** Ethernet_GenerateHeaderIP: the header to the MAC address the ARP cache
      holds for the host part of destinationIp. On a miss ARP_GenerateRequest
      writes an ARP request frame instead and the negated int8_t of its length
      is returned. ARP_GenerateRequest is not part of this model: the frame it
      writes from the start of the packet is the parameter arpRequest. */
  method GenerateHeaderIP(frame: array<Byte>, destinationIp: Address, etherType: U16, table: Arp.Table,
                          arpRequest: seq<Byte>)
    returns (r: Int8)
    requires HeaderLen <= frame.Length && table.Valid()
    requires |arpRequest| < 0x100 && |arpRequest| <= frame.Length
    modifies frame
    ensures var mac := Arp.Lookup(table.entries[..], GetHost(destinationIp));
            && (mac.Some? ==> r == HeaderLen && frame[..] == Splice(old(frame[..]), 0, Header(mac.value, etherType)))
            && (mac.None? ==> r == ToInt8(-|arpRequest|) && frame[..] == Splice(old(frame[..]), 0, arpRequest))
  {
    var mac := table.SearchMac(GetHost(destinationIp));
    if mac.None? {
      Store(frame, 0, arpRequest);
      return ToInt8(-|arpRequest|);
    }
    var n := GenerateHeader(frame, mac.value, etherType);
    r := n;
  }
}
