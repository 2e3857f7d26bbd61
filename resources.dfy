// The station's configuration: addresses, ports, packet limits, and the
// subnet tests built on the prefix length (resources.h, resources.c).
// Addresses are kept as they lie in memory, in network byte order.
module Resources {
  import opened Bytes
  import opened Bits

  /** CIDR: length of the network prefix. */
  const Cidr: nat := 24

  /** An IPv4 address, four bytes in network order. */
  type Address = s: seq<Byte> | |s| == 4 witness [0, 0, 0, 0]

  /** A MAC address, six bytes. */
  type MacAddress = s: seq<Byte> | |s| == 6 witness [0, 0, 0, 0, 0, 0]

  const OwnIP: Address := [192, 168, 200, 40]
  const RouterIP: Address := [192, 168, 200, 3]
  const SntpIP: Address := [192, 168, 200, 3]
  const OwnMAC: MacAddress := [0x02, 0x00, 0x00, 0x00, 0x00, 0x40]
  const BroadcastMAC: MacAddress := [0xFF, 0xFF, 0xFF, 0xFF, 0xFF, 0xFF]

  /** UDP_PORT: the port of the switching protocol. */
  const UdpPort: U16 := 65432

  /** PACKET_LEN_MAX: an Ethernet header and a 576-byte IP datagram. */
  const PacketLenMax: nat := 14 + 576

  /** PACKET_LEN_MIN: an Ethernet header and the 28 bytes of ARP or IP with UDP or ICMP. */
  const PacketLenMin: nat := 14 + 28

  /** Seconds between two SNTP queries. */
  const SntpTimeBetweenQueries: nat := 300

  /** The prefix lengths the configuration accepts: CIDR >= 32 is rejected at compile time. */
  predicate ValidCidr(cidr: nat)
  {
    0 < cidr < 32
  }

  /** Width of IP_Hostpart_t: uint8_t from /24 on, uint16_t from /16 on,
      uint32_t below. It always holds the 32 - cidr host bits. */
  function HostpartBits(cidr: nat): (w: nat)
    requires ValidCidr(cidr)
    ensures 32 - cidr <= w && w in {8, 16, 32}
  {
    if cidr >= 24 then 8 else if cidr >= 16 then 16 else 32
  }

  /** NETMASK, ~(2^(32 - cidr) - 1) as a uint32_t. */
  function Netmask(cidr: nat): int
    requires ValidCidr(cidr)
  {
    Pow2(32) - Pow2(32 - cidr)
  }

  /** CPU_TO_BE32(NETMASK): the configured netmask as it lies in memory. */
  const NetmaskBytes: Address := [0xFF, 0xFF, 0xFF, 0x00]

  /** The bytes are those of the configured netmask. */
  lemma NetmaskBytesValue()
    ensures Be32(NetmaskBytes, 0) == Netmask(Cidr) == 0xFFFF_FF00
  {
    Pow2Values();
  }

  /** IP_compareNet: *a & NETMASK == *b & NETMASK. `&` acts on each byte
      alone, so the masking is done byte by byte on the network-order words. */
  predicate CompareNet(a: Address, b: Address)
  {
    forall i :: 0 <= i < 4 ==> Bits.And(a[i], NetmaskBytes[i]) == Bits.And(b[i], NetmaskBytes[i])
  }

  /** IP_getHost: be32_to_cpu of the address truncated to IP_Hostpart_t,
      which is uint8_t for the configured prefix. */
  function GetHost(a: Address): (host: Byte)
    ensures host == Be32(a, 0) % Pow2(HostpartBits(Cidr))
  {
    Pow2Byte();
    Be32(a, 0) % 0x100
  }

  /** Two addresses are in the same /24 network iff their first three bytes agree. */
  lemma CompareNetPrefix(a: Address, b: Address)
    ensures CompareNet(a, b) <==> a[..3] == b[..3]
  {
    forall x: Byte
      ensures Bits.And(x, 0xFF) == x && Bits.And(x, 0) == 0
    {
      AndFull(x);
    }
    if a[..3] != b[..3] {
      var i :| 0 <= i < 3 && a[i] != b[i];
      assert Bits.And(a[i], NetmaskBytes[i]) != Bits.And(b[i], NetmaskBytes[i]);
    }
  }

  /** With a /24 prefix the host part is the last byte of the address. */
  lemma GetHostLastByte(a: Address)
    ensures GetHost(a) == a[3]
  {
  }

  /** The network part and IP_getHost together determine the address: the
      ARP table keys its entries on the host part of on-link addresses. */
  lemma NetAndHostDetermine(a: Address, b: Address)
    requires CompareNet(a, b) && GetHost(a) == GetHost(b)
    ensures a == b
  {
    CompareNetPrefix(a, b);
    GetHostLastByte(a);
    GetHostLastByte(b);
    assert a == a[..3] + [a[3]] && b == b[..3] + [b[3]];
  }

  /** BroadcastIPAddress, own | ~NETMASK, byte by byte. */
  function Broadcast(own: Address): (b: Address)
  {
    seq(4, i requires 0 <= i < 4 => OrByte(own[i], 0xFF - NetmaskBytes[i]))
  }

  /** The broadcast address lies in the station's network and has every host bit set. */
  lemma BroadcastOnNet(own: Address)
    ensures CompareNet(Broadcast(own), own)
    ensures Broadcast(own)[3] == 0xFF
  {
    OrFull(own[3]);
    CompareNetPrefix(Broadcast(own), own);
  }

  /** The configured broadcast address. */
  lemma BroadcastValue()
    ensures Broadcast(OwnIP) == [192, 168, 200, 255]
  {
    OrFull(40);
  }
}
