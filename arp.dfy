// What the two ARP implementations (Lib/ARP.c and c++/net/ARP.c) share: the
// 28-byte ARP header for Ethernet and IPv4 of RFC 826, and the 10-entry cache
// that maps the host part of an on-link address to its MAC address.
module Arp {
  import opened Bytes
  import opened Resources
  import opened Wrappers

  /** sizeof(ARP_Header_t). */
  const HeaderLen: nat := 28

  /** ARP_HARDWARE_ETHERNET. */
  const HardwareEthernet: U16 := 1

  /** ETHERTYPE_IPV4 as the protocol type. */
  const ProtocolIPv4: U16 := 0x0800

  /** ARP_OPERATION_REQUEST and ARP_OPERATION_REPLY. */
  const OpRequest: U16 := 1
  const OpReply: U16 := 2

  /** ARP_Header_t, with the 16-bit fields in host order. */
  datatype Header = Header(
    hardwareType: U16, protocolType: U16, hlen: Byte, plen: Byte, operation: U16,
    senderMac: MacAddress, senderIp: Address, targetMac: MacAddress, targetIp: Address)

  /** The header as it lies in the frame. */
  function Encode(h: Header): (b: seq<Byte>)
    ensures |b| == HeaderLen
  {
    Be16Bytes(h.hardwareType) + Be16Bytes(h.protocolType) + [h.hlen, h.plen]
      + Be16Bytes(h.operation) + h.senderMac + h.senderIp + h.targetMac + h.targetIp
  }

  /** The header read from 28 bytes of a frame. */
  function Parse(b: seq<Byte>): Header
    requires |b| == HeaderLen
  {
    Header(Be16(b, 0), Be16(b, 2), b[4], b[5], Be16(b, 6), b[8..14], b[14..18], b[18..24], b[24..28])
  }

  /** Reading back a written header gives the same fields. */
  lemma ParseEncode(h: Header)
    ensures Parse(Encode(h)) == h
  {
    var b := Encode(h);
    assert b[..2] == Be16Bytes(h.hardwareType) && b[2..4] == Be16Bytes(h.protocolType);
    assert b[6..8] == Be16Bytes(h.operation);
    assert b[8..14] == h.senderMac && b[14..18] == h.senderIp;
    assert b[18..24] == h.targetMac && b[24..28] == h.targetIp;
  }

  /** Writing back a read header gives the same bytes. */
  lemma EncodeParse(b: seq<Byte>)
    requires |b| == HeaderLen
    ensures Encode(Parse(b)) == b
  {
    Be16Bytes16(b, 0);
    Be16Bytes16(b, 2);
    Be16Bytes16(b, 6);
    assert b == b[0..2] + b[2..4] + [b[4], b[5]] + b[6..8] + b[8..14] + b[14..18] + b[18..24] + b[24..28];
  }

  /** The header ARP_WriteHeader writes: hardware Ethernet, protocol IPv4,
      the two address lengths, the operation, the given target, and the
      station itself as sender. */
  function Written(operation: U16, targetMac: MacAddress, targetIp: Address): Header
  {
    Header(HardwareEthernet, ProtocolIPv4, 6, 4, operation, OwnMAC, OwnIP, targetMac, targetIp)
  }

  /** The reply to a request: sender and target exchanged, the station as sender. */
  function ReplyTo(h: Header): (r: Header)
    ensures r.operation == OpReply && r.targetMac == h.senderMac && r.targetIp == h.senderIp
    ensures r.senderMac == OwnMAC && r.senderIp == OwnIP
  {
    Written(OpReply, h.senderMac, h.senderIp)
  }

  // ---------------------------------------------------------------------
  // The cache: ARP_Table and its writePosition.

  /** ARRAY_SIZE(ARP_Table). */
  const TableSize: nat := 10

  /** ARP_TableEntry: the host part of an on-link address and its MAC address. */
  datatype Entry = Entry(host: Byte, mac: MacAddress)

  /** The all-zero entry the table is initialised with. */
  const ZeroEntry: Entry := Entry(0, [0, 0, 0, 0, 0, 0])

  /** Index of the first entry for host, or |s| when there is none. */
  function FirstMatch(s: seq<Entry>, host: Byte): (i: nat)
    ensures i <= |s|
    ensures i < |s| ==> s[i].host == host
    ensures forall j :: 0 <= j < i ==> s[j].host != host
  {
    if s == [] then 0
    else if s[0].host == host then 0
    else 1 + FirstMatch(s[1..], host)
  }

  /** ARP_searchMAC: the MAC of the first entry for host, if any. */
  function Lookup(s: seq<Entry>, host: Byte): (r: Option<MacAddress>)
    ensures r.Some? <==> exists j :: 0 <= j < |s| && s[j].host == host
    ensures r.Some? ==> Entry(host, r.value) in s
  {
    var i := FirstMatch(s, host);
    if i < |s| then Some(s[i].mac) else None
  }

  /** The advance of writePosition as written: `if (writePosition < 10)
      writePosition++`, which lets it reach 10. */
  function NextPositionAsWritten(wp: nat): nat
  {
    if wp < TableSize then wp + 1 else 0
  }

  /** writePosition after n new hosts, as written. */
  function PositionAsWritten(n: nat): nat
  {
    if n == 0 then 0 else NextPositionAsWritten(PositionAsWritten(n - 1))
  }

  /** As written, after ten new hosts writePosition is 10, so the eleventh new
      host is stored one entry past the end of ARP_Table. */
  lemma {:induction false} PositionAsWrittenOverruns(n: nat)
    requires n <= TableSize
    ensures PositionAsWritten(n) == n
    ensures n == TableSize ==> PositionAsWritten(n) >= TableSize
  {
    if n > 0 {
      PositionAsWrittenOverruns(n - 1);
    }
  }

  /** The intended advance: round robin over the ten entries. */
  function NextPosition(wp: nat): (r: nat)
    requires wp < TableSize
    ensures r < TableSize
    ensures r == (wp + 1) % TableSize
  {
    if wp + 1 < TableSize then wp + 1 else 0
  }

  /** The table after learning that host has address mac: the first entry for
      host gets the new MAC; a host not in the table replaces the entry at
      writePosition. */
  function Learned(s: seq<Entry>, wp: nat, host: Byte, mac: MacAddress): (r: seq<Entry>)
    requires wp < |s|
    ensures |r| == |s|
  {
    var i := FirstMatch(s, host);
    if i < |s| then s[i := Entry(host, mac)] else s[wp := Entry(host, mac)]
  }

  /** writePosition after learning host: it moves only for a new host. */
  function LearnedPosition(s: seq<Entry>, wp: nat, host: Byte): (r: nat)
    requires wp < TableSize
    ensures r < TableSize
  {
    if FirstMatch(s, host) < |s| then wp else NextPosition(wp)
  }

  /** After learning, a search for the host finds the learned address. */
  lemma LearnThenLookup(s: seq<Entry>, wp: nat, host: Byte, mac: MacAddress)
    requires wp < |s|
    ensures Lookup(Learned(s, wp, host, mac), host) == Some(mac)
  {
    var r := Learned(s, wp, host, mac);
    var i := FirstMatch(s, host);
    if i < |s| {
      assert r[i].host == host;
    } else {
      var k := FirstMatch(r, host);
      assert r[wp].host == host;
      assert k <= wp;
      assert k < |r| && r[k].host == host;
      assert k == wp;
    }
  }

  /** Learning changes the answer for no other host, unless the entry at
      writePosition that it overwrote was the other host's first entry. */
  lemma LearnKeepsOthers(s: seq<Entry>, wp: nat, host: Byte, mac: MacAddress, other: Byte)
    requires wp < |s| && other != host
    requires FirstMatch(s, other) != wp
    ensures Lookup(Learned(s, wp, host, mac), other) == Lookup(s, other)
  {
    var r := Learned(s, wp, host, mac);
    var c := if FirstMatch(s, host) < |s| then FirstMatch(s, host) else wp;
    assert r == s[c := Entry(host, mac)];
    FirstMatchAgree(s, r, other);
  }

  /** Sequences that agree on which entries are for h up to the first one
      have the same first entry for h. */
  lemma FirstMatchAgree(s: seq<Entry>, r: seq<Entry>, h: Byte)
    requires |r| == |s|
    requires forall j :: 0 <= j < |s| && j <= FirstMatch(s, h) ==> (r[j].host == h <==> s[j].host == h)
    ensures FirstMatch(r, h) == FirstMatch(s, h)
  {
  }

  /** The table is zero-initialised, so before anything is learned host part 0
      is found with the all-zero MAC address. */
  lemma ZeroHostFound()
    ensures Lookup(seq(TableSize, _ => ZeroEntry), 0) == Some(ZeroEntry.mac)
  {
    var s := seq(TableSize, _ => ZeroEntry);
    assert FirstMatch(s, 0) == 0;
  }

  /** ARP_Table with its writePosition, writePosition kept inside the table. */
  class Table {
    const entries: array<Entry>
    var writePosition: nat

    predicate Valid()
      reads this
    {
      entries.Length == TableSize && writePosition < TableSize
    }

    /** The zero-initialised table. */
    constructor ()
      ensures Valid() && fresh(entries)
      ensures entries[..] == seq(TableSize, _ => ZeroEntry) && writePosition == 0
    {
      entries := new Entry[TableSize](_ => ZeroEntry);
      writePosition := 0;
    }

    /** The REPLY branch of ARP_ProcessPacket once the sender is known to be on
        link: update the first entry for host, or store a new one at
        writePosition and advance it. */
    method Learn(host: Byte, mac: MacAddress)
      requires Valid()
      modifies this, entries
      ensures Valid()
      ensures entries[..] == Learned(old(entries[..]), old(writePosition), host, mac)
      ensures writePosition == LearnedPosition(old(entries[..]), old(writePosition), host)
    {
      var i := 0;
      while i < entries.Length
        invariant 0 <= i <= entries.Length
        invariant forall j :: 0 <= j < i ==> entries[j].host != host
        invariant entries[..] == old(entries[..])
      {
        if entries[i].host == host {
          entries[i] := entries[i].(mac := mac);
          return;
        }
        i := i + 1;
      }
      entries[writePosition] := Entry(host, mac);
      writePosition := NextPosition(writePosition);
    }

    /** ARP_searchMAC: the MAC address of the first entry for host, or None. */
    method SearchMac(host: Byte) returns (r: Option<MacAddress>)
      requires Valid()
      ensures r == Lookup(entries[..], host)
    {
      r := None;
      var i := 0;
      while i < entries.Length
        invariant 0 <= i <= entries.Length
        invariant forall j :: 0 <= j < i ==> entries[j].host != host
      {
        if entries[i].host == host {
          r := Some(entries[i].mac);
          return;
        }
        i := i + 1;
      }
    }
  }
}
