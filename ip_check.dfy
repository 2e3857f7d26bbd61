// The earlier stand-alone variant of the USB pre-check (IPcheck.c): the same
// byte-by-byte reading as net/PacketCheck.c, but only the version nibble of
// Version/IHL is checked, the Total Length is compared before the Ethernet
// header is added, its lower limit is exclusive, and UDP-Lite is admitted
// besides ICMP and UDP. The ARP part is the same code.
module IpCheck {
  import opened Bytes
  import opened Resources
  import PacketCheck

  /** IP_PROTOCOL_UDPLITE. */
  const ProtocolUdpLite: Byte := 136

  /** Whether the high nibble of Version/IHL is 4:
      `(data & 0xF0) == (IP_VERSION_IHL & 0xF0)`. */
  predicate VersionFour(data: Byte)
  {
    (data as bv8) & 0xF0 == 0x40
  }

  /** The value this variant returns for a frame starting with s. */
  function Checked(s: seq<Byte>): (n: U16)
    requires |s| >= PacketCheck.CheckLen
    ensures n == 0 || PacketLenMin <= n <= PacketLenMax
  {
    if !PacketCheck.ForStation(s) || s[12] != 0x08 then 0
    else if s[13] == 0x00 then
      var ipLength := Be16(s, 16);
      if VersionFour(s[14]) && PacketLenMin - 14 < ipLength <= PacketLenMax - 14
         && PacketCheck.OnlyBits(s[20], 0x40) && PacketCheck.OnlyBits(s[21], 0)
         && (s[23] == 1 || s[23] == 17 || s[23] == ProtocolUdpLite)
      then ipLength + 14 else 0
    else PacketCheck.Checked(s)
  }

  /** The two variants agree on everything but IPv4: ARP frames and other
      EtherTypes. */
  lemma AgreeOffIPv4(s: seq<Byte>)
    requires |s| >= PacketCheck.CheckLen && !(s[12] == 0x08 && s[13] == 0x00)
    ensures Checked(s) == PacketCheck.Checked(s)
  {
  }

  /** On IPv4 frames with a 20-byte header, ICMP or UDP, and more than 28
      bytes of datagram, both variants return the same length. */
  lemma AgreeOnIPv4(s: seq<Byte>)
    requires |s| >= PacketCheck.CheckLen && s[12] == 0x08 && s[13] == 0x00
    requires s[14] == 0x45 && (s[23] == 1 || s[23] == 17) && Be16(s, 16) != PacketLenMin - 14
    ensures Checked(s) == PacketCheck.Checked(s)
  {
    PacketCheck.CheckedIPv4(s);
    PacketCheck.FlagBytes(s[20]);
    PacketCheck.FlagBytes(s[21]);
  }

  /** A 28-byte datagram (an ICMP echo without data, a UDP datagram without
      payload) addressed to the station is dropped by this variant, whose
      lower limit is exclusive, while net/PacketCheck.c takes it. */
  lemma MinimumDatagramRejected()
    ensures var s := OwnMAC + OwnMAC + [0x08, 0x00, 0x45, 0, 0, 28, 0, 0, 0, 0, 64, 17];
            |s| == PacketCheck.CheckLen && Checked(s) == 0 && PacketCheck.Checked(s) == PacketLenMin
  {
    var s := OwnMAC + OwnMAC + [0x08, 0x00, 0x45, 0, 0, 28, 0, 0, 0, 0, 64, 17];
    assert s[..6] == OwnMAC;
    assert Be16(s, 16) == 28;
  }

  /** The IPv4 part of this variant, from the 15th byte on. */
  method ReadIPv4(buffer: array<Byte>, input: seq<Byte>, ghost b0: seq<Byte>) returns (n: U16, pos: nat)
    requires PacketCheck.CheckLen <= |input| && PacketCheck.CheckLen <= buffer.Length && |b0| == buffer.Length
    requires PacketCheck.ForStation(input) && input[12] == 0x08 && input[13] == 0x00
    requires buffer[..] == Splice(b0, 0, input[..14])
    modifies buffer
    ensures n == Checked(input)
    ensures 14 < pos <= PacketCheck.CheckLen && (n != 0 ==> pos == PacketCheck.CheckLen)
    ensures buffer[..] == Splice(b0, 0, input[..pos])
  {
    n := 0;
    var data, high;
    // Version/IHL, then Type of Service.
    data, pos := PacketCheck.Next(buffer, input, 14, b0);
    if !VersionFour(data) { return; }
    data, pos := PacketCheck.Next(buffer, input, pos, b0);
    // Total Length.
    high, pos := PacketCheck.Next(buffer, input, pos, b0);
    data, pos := PacketCheck.Next(buffer, input, pos, b0);
    var ipLength := high as int * 0x100 + data as int;
    if ipLength <= PacketLenMin - 14 || ipLength > PacketLenMax - 14 { return; }
    // Identification.
    data, pos := PacketCheck.Next(buffer, input, pos, b0);
    data, pos := PacketCheck.Next(buffer, input, pos, b0);
    // Flags and Fragment Offset.
    data, pos := PacketCheck.Next(buffer, input, pos, b0);
    if !PacketCheck.OnlyBits(data, 0x40) { return; }
    data, pos := PacketCheck.Next(buffer, input, pos, b0);
    if !PacketCheck.OnlyBits(data, 0) { return; }
    // Time To Live, then Protocol.
    data, pos := PacketCheck.Next(buffer, input, pos, b0);
    data, pos := PacketCheck.Next(buffer, input, pos, b0);
    if data != 1 && data != 17 && data != ProtocolUdpLite { return; }
    n := ipLength + 14;
  }

  /** USB_Read24Byte_Check_GetLength of this variant. */
  method ReadCheckGetLength(buffer: array<Byte>, input: seq<Byte>) returns (n: U16, consumed: nat)
    requires PacketCheck.CheckLen <= |input| && PacketCheck.CheckLen <= buffer.Length
    modifies buffer
    ensures n == Checked(input)
    ensures 0 < consumed <= PacketCheck.CheckLen && (n != 0 ==> consumed == PacketCheck.CheckLen)
    ensures buffer[..] == Splice(old(buffer[..]), 0, input[..consumed])
  {
    ghost var b0 := buffer[..];
    var ok, low;
    ok, low, consumed := PacketCheck.ReadEthernet(buffer, input, b0);
    if !ok {
      return 0, consumed;
    }
    if low == 0x00 {
      n, consumed := ReadIPv4(buffer, input, b0);
    } else if low == 0x06 {
      n, consumed := PacketCheck.ReadArp(buffer, input, b0);
    } else {
      n := 0;
    }
  }
}
