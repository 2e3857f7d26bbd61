// The streaming pre-check of a frame arriving over USB (net/PacketCheck.c):
// the first 24 bytes are read one by one from the endpoint register, each is
// stored to the receive buffer, and the frame's total length is returned
// when it is an Ethernet frame for the station carrying an IPv4 datagram
// without options or fragmentation (ICMP or UDP) or an Ethernet/IPv4 ARP
// packet; 0 otherwise. The endpoint register is modelled as the sequence of
// bytes it yields.
module PacketCheck {
  import opened Bytes
  import opened Resources

  /** The bytes an accepted frame has been read up to. */
  const CheckLen: nat := 24

  /** sizeof(ARP) + sizeof(Ethernet), the length of an ARP frame. */
  const ArpFrameLen: U16 := 28 + 14

  /** `(data & ~mask) == 0` on a byte: no bit outside mask is set. */
  predicate OnlyBits(data: Byte, mask: Byte)
  {
    (data as bv8) & !(mask as bv8) == 0
  }

  /** The flags byte may be 0 or hold only Don't Fragment; the second byte
      of the field must be 0. */
  lemma FlagBytes(d: Byte)
    ensures OnlyBits(d, 0x40) <==> d == 0 || d == 0x40
    ensures OnlyBits(d, 0) <==> d == 0
  {
  }

  /** Whether the destination address is the station's or the broadcast
      address. */
  predicate ForStation(s: seq<Byte>)
    requires |s| >= 6
  {
    s[..6] == OwnMAC || s[..6] == BroadcastMAC
  }

  /** The value USB_Read24Byte_Check_GetLength returns for a frame that
      starts with the bytes of s: for IPv4, the Total Length plus 14 as a
      uint16_t, when that is within [PACKET_LEN_MIN, PACKET_LEN_MAX],
      Version/IHL is 0x45, only Don't Fragment is set and the protocol is
      ICMP or UDP; for ARP, 42 when hardware type, protocol type and the
      two lengths are those of Ethernet and IPv4. */
  function Checked(s: seq<Byte>): (n: U16)
    requires |s| >= CheckLen
    ensures n == 0 || PacketLenMin <= n <= PacketLenMax
  {
    if !ForStation(s) || s[12] != 0x08 then 0
    else if s[13] == 0x00 then
      var total := (Be16(s, 16) + 14) % 0x1_0000;
      if s[14] == 0x45 && PacketLenMin <= total <= PacketLenMax
         && OnlyBits(s[20], 0x40) && OnlyBits(s[21], 0) && (s[23] == 1 || s[23] == 17)
      then total else 0
    else if s[13] == 0x06 then
      if s[14] == 0 && s[15] == 1 && s[16] == 0x08 && s[17] == 0 && s[18] == 6 && s[19] == 4
      then ArpFrameLen else 0
    else 0
  }

  /** The IPv4 frames USB_Read24Byte_Check_GetLength accepts, in the header's own terms: the
      frame is for the station, Version/IHL is 0x45, the Flags/Fragment
      field is 0 or Don't Fragment, the protocol is ICMP or UDP, and the
      Total Length is between 28 and 576; the returned length is then the
      Total Length plus the Ethernet header. The 16-bit sum cannot wrap into
      the accepted range. */
  lemma CheckedIPv4(s: seq<Byte>)
    requires |s| >= CheckLen && s[12] == 0x08 && s[13] == 0x00
    ensures Checked(s) == if ForStation(s) && s[14] == 0x45 && (Be16(s, 20) == 0 || Be16(s, 20) == 0x4000)
                             && (s[23] == 1 || s[23] == 17) && 28 <= Be16(s, 16) <= 576
                          then Be16(s, 16) + 14 else 0
  {
    FlagBytes(s[20]);
    FlagBytes(s[21]);
    var x := Be16(s, 16);
    if x + 14 >= 0x1_0000 {
      assert (x + 14) % 0x1_0000 == x + 14 - 0x1_0000 < PacketLenMin;
    }
  }

  /** The ARP frames it accepts: for the station, with the fixed
      fields of an Ethernet/IPv4 ARP header; their length is that of a frame
      holding just the ARP header. */
  lemma CheckedArp(s: seq<Byte>)
    requires |s| >= CheckLen && s[12] == 0x08 && s[13] == 0x06
    ensures Checked(s) == if ForStation(s) && Be16(s, 14) == 1 && Be16(s, 16) == 0x0800 && s[18] == 6 && s[19] == 4
                          then PacketLenMin else 0
  {
  }

  /** Reads the next register byte into the buffer: `*destinationBuffer++ =
      data = UEDATX`. b0 is the buffer before the first read. */
  method Next(buffer: array<Byte>, input: seq<Byte>, pos: nat, ghost b0: seq<Byte>) returns (data: Byte, next: nat)
    requires pos < |input| && pos < buffer.Length && |b0| == buffer.Length
    requires buffer[..] == Splice(b0, 0, input[..pos])
    modifies buffer
    ensures data == input[pos] && next == pos + 1
    ensures buffer[..] == Splice(b0, 0, input[..next])
  {
    data := input[pos];
    buffer[pos] := data;
    next := pos + 1;
    assert input[..next] == input[..pos] + [data];
  }

  /** The part both variants share: the destination address compared byte
      by byte with the station's or, from a first byte 0xFF on, the
      broadcast address; the source address copied; the EtherType's high
      byte 0x08, common to IPv4 and ARP. Returns the EtherType's low byte
      when the frame passed, and the number of bytes read. */
  method ReadEthernet(buffer: array<Byte>, input: seq<Byte>, ghost b0: seq<Byte>)
    returns (ok: bool, low: Byte, pos: nat)
    requires CheckLen <= |input| && CheckLen <= buffer.Length && b0 == buffer[..]
    modifies buffer
    ensures ok <==> ForStation(input) && input[12] == 0x08
    ensures ok ==> pos == 14 && low == input[13]
    ensures 0 < pos <= 14
    ensures buffer[..] == Splice(b0, 0, input[..pos])
  {
    ok, low, pos := false, 0, 0;
    assert input[..0] == [];
    var data;
    data, pos := Next(buffer, input, pos, b0);
    var mac: MacAddress;
    if data == OwnMAC[0] {
      mac := OwnMAC;
    } else if data == BroadcastMAC[0] {
      mac := BroadcastMAC;
    } else {
      return;
    }
    data, pos := Next(buffer, input, pos, b0);
    if data != mac[1] { return; }
    data, pos := Next(buffer, input, pos, b0);
    if data != mac[2] { return; }
    data, pos := Next(buffer, input, pos, b0);
    if data != mac[3] { return; }
    data, pos := Next(buffer, input, pos, b0);
    if data != mac[4] { return; }
    data, pos := Next(buffer, input, pos, b0);
    if data != mac[5] { return; }
    assert input[..6] == mac;
    // Source address.
    data, pos := Next(buffer, input, pos, b0);
    data, pos := Next(buffer, input, pos, b0);
    data, pos := Next(buffer, input, pos, b0);
    data, pos := Next(buffer, input, pos, b0);
    data, pos := Next(buffer, input, pos, b0);
    data, pos := Next(buffer, input, pos, b0);
    // EtherType.
    data, pos := Next(buffer, input, pos, b0);
    if data != 0x08 { return; }
    low, pos := Next(buffer, input, pos, b0);
    ok := true;
  }

  /** The IPv4 part, from the 15th byte on: Version/IHL, Total Length plus
      the Ethernet header within the limits, Flags/Fragment, Protocol. */
  method ReadIPv4(buffer: array<Byte>, input: seq<Byte>, ghost b0: seq<Byte>) returns (n: U16, pos: nat)
    requires CheckLen <= |input| && CheckLen <= buffer.Length && |b0| == buffer.Length
    requires ForStation(input) && input[12] == 0x08 && input[13] == 0x00
    requires buffer[..] == Splice(b0, 0, input[..14])
    modifies buffer
    ensures n == Checked(input)
    ensures 14 < pos <= CheckLen && (n != 0 ==> pos == CheckLen)
    ensures buffer[..] == Splice(b0, 0, input[..pos])
  {
    n := 0;
    var data, high;
    // Version/IHL, then Type of Service.
    data, pos := Next(buffer, input, 14, b0);
    if data != 0x45 { return; }
    data, pos := Next(buffer, input, pos, b0);
    // Total Length.
    high, pos := Next(buffer, input, pos, b0);
    data, pos := Next(buffer, input, pos, b0);
    var total := (high as int * 0x100 + data as int + 14) % 0x1_0000;
    if total < PacketLenMin || total > PacketLenMax { return; }
    // Identification.
    data, pos := Next(buffer, input, pos, b0);
    data, pos := Next(buffer, input, pos, b0);
    // Flags and Fragment Offset.
    data, pos := Next(buffer, input, pos, b0);
    if !OnlyBits(data, 0x40) { return; }
    data, pos := Next(buffer, input, pos, b0);
    if !OnlyBits(data, 0) { return; }
    // Time To Live, then Protocol.
    data, pos := Next(buffer, input, pos, b0);
    data, pos := Next(buffer, input, pos, b0);
    if data != 1 && data != 17 { return; }
    n := total;
  }

  /** The ARP part, from the 15th byte on: hardware type 1, protocol type
      0x0800, lengths 6 and 4; the operation and two more bytes are read
      unchecked. */
  method ReadArp(buffer: array<Byte>, input: seq<Byte>, ghost b0: seq<Byte>) returns (n: U16, pos: nat)
    requires CheckLen <= |input| && CheckLen <= buffer.Length && |b0| == buffer.Length
    requires ForStation(input) && input[12] == 0x08 && input[13] == 0x06
    requires buffer[..] == Splice(b0, 0, input[..14])
    modifies buffer
    ensures n == Checked(input)
    ensures 14 < pos <= CheckLen && (n != 0 ==> pos == CheckLen)
    ensures buffer[..] == Splice(b0, 0, input[..pos])
  {
    n := 0;
    var data;
    // Hardware Type.
    data, pos := Next(buffer, input, 14, b0);
    if data != 0 { return; }
    data, pos := Next(buffer, input, pos, b0);
    if data != 1 { return; }
    // Protocol Type.
    data, pos := Next(buffer, input, pos, b0);
    if data != 0x08 { return; }
    data, pos := Next(buffer, input, pos, b0);
    if data != 0 { return; }
    // Hardware and Protocol Length.
    data, pos := Next(buffer, input, pos, b0);
    if data != 6 { return; }
    data, pos := Next(buffer, input, pos, b0);
    if data != 4 { return; }
    // Operation, then the first two bytes of the sender's address.
    data, pos := Next(buffer, input, pos, b0);
    data, pos := Next(buffer, input, pos, b0);
    data, pos := Next(buffer, input, pos, b0);
    data, pos := Next(buffer, input, pos, b0);
    n := ArpFrameLen;
  }

  /** USB_Read24Byte_Check_GetLength. Every byte read is stored in the
      buffer in order; the result is Checked of the frame, and a frame that
      is accepted has been read exactly up to its 24th byte, which the USB
      receive code relies on. */
  method ReadCheckGetLength(buffer: array<Byte>, input: seq<Byte>) returns (n: U16, consumed: nat)
    requires CheckLen <= |input| && CheckLen <= buffer.Length
    modifies buffer
    ensures n == Checked(input)
    ensures 0 < consumed <= CheckLen && (n != 0 ==> consumed == CheckLen)
    ensures buffer[..] == Splice(old(buffer[..]), 0, input[..consumed])
  {
    ghost var b0 := buffer[..];
    var ok, low;
    ok, low, consumed := ReadEthernet(buffer, input, b0);
    if !ok {
      return 0, consumed;
    }
    if low == 0x00 {
      n, consumed := ReadIPv4(buffer, input, b0);
    } else if low == 0x06 {
      n, consumed := ReadArp(buffer, input, b0);
    } else {
      n := 0;
    }
  }
}
