// ICMP echo (RFC 792) as Lib/ICMP.c answers it: an echo request is turned
// into the echo reply in place, and its checksum is patched incrementally
// (RFC 1624) instead of recomputed.
module LibIcmp {
  import opened Bytes
  import Checksum

  /** ICMP_Echo_Reply and ICMP_Echo_Request. */
  const EchoReply: Byte := 0
  const EchoRequest: Byte := 8

  /** ICMP_ECHO_Code. */
  const EchoCode: Byte := 0

  /** CPU_TO_BE16((ICMP_Echo_Request - ICMP_Echo_Reply) << 8) as the
      little-endian CPU holds it: the bytes 0x08, 0x00, read as 0x0008. */
  const ChecksumDelta: U16 := 0x0008

  /** The four header bytes (Type, Code, Checksum) of the reply made from
      the header h of a request: Type 0, Code kept, and the checksum word
      one's-complement increased by the change of the first word. */
  function Replied(h: seq<Byte>): (r: seq<Byte>)
    requires |h| == 4
    ensures |r| == 4 && r[0] == EchoReply && r[1] == h[1]
    ensures Le16(r, 2) == Checksum.Add(Le16(h, 2), ChecksumDelta)
  {
    [EchoReply, h[1]] + Le16Bytes(Checksum.Add(Le16(h, 2), ChecksumDelta))
  }

  /** Whether ICMP_ProcessPacket answers a message with this header. */
  predicate IsEchoRequest(h: seq<Byte>)
    requires |h| >= 2
  {
    h[1] == EchoCode && h[0] == EchoRequest
  }

  /** ICMP_ProcessPacket: an echo request (Code 0, Type 8) becomes the reply
      and length is returned; everything else, echo replies included, returns
      0 and is left as it is. */
  method ProcessPacket(frame: array<Byte>, off: nat, length: U16) returns (r: U16)
    requires off + 4 <= frame.Length
    modifies frame
    ensures var h := old(frame[off..off + 4]);
      && r == (if IsEchoRequest(h) then length else 0)
      && frame[..] == (if IsEchoRequest(h) then Splice(old(frame[..]), off, Replied(h)) else old(frame[..]))
  {
    ghost var h := frame[off..off + 4];
    if frame[off + 1] != EchoCode {
      return 0;
    }
    if frame[off] == EchoRequest {
      var checksum := Le16(frame[..], off + 2);
      Store(frame, off, [EchoReply]);
      Store(frame, off + 2, Le16Bytes(Checksum.Add(checksum, ChecksumDelta)));
      assert frame[..] == Splice(old(frame[..]), off, Replied(h));
      return length;
    }
    return 0;
  }

  /** A reply is not answered again. */
  lemma ReplyNotAnswered(h: seq<Byte>)
    requires |h| == 4
    ensures !IsEchoRequest(Replied(h))
  {
  }

  /** The incremental update keeps a correct checksum correct: if the
      message s was an echo request whose checksum verified, the reply
      verifies too. */
  lemma ReplyChecksumValid(s: seq<Byte>)
    requires |s| >= 4 && IsEchoRequest(s[..4])
    requires Checksum.ChecksumOf(s) == 0
    ensures Checksum.ChecksumOf(Splice(s, 0, Replied(s[..4]))) == 0
  {
    var ws := Checksum.Words(s);
    ReplyWords(s);
    Checksum.ValidIff(s);
    Checksum.Adjust(ws, ChecksumDelta);
    Checksum.ValidIff(Splice(s, 0, Replied(s[..4])));
  }

  /** In words, the reply lowers the first word (Type and Code) by the delta
      and one's-complement adds the delta to the checksum word. */
  lemma ReplyWords(s: seq<Byte>)
    requires |s| >= 4 && IsEchoRequest(s[..4])
    ensures var ws := Checksum.Words(s);
      ws[0] == ChecksumDelta
      && Checksum.Words(Splice(s, 0, Replied(s[..4])))
         == ws[0 := ws[0] - ChecksumDelta][1 := Checksum.Add(ws[1], ChecksumDelta)]
  {
    var ws := Checksum.Words(s);
    var c := Checksum.Add(Le16(s, 2), ChecksumDelta);
    var s1 := Splice(s, 0, Le16Bytes(0));
    Checksum.StoreWord(s, 0, 0);
    Checksum.StoreWord(s1, 2, c);
    assert ws[0] == ChecksumDelta && ws[1] == Le16(s, 2);
    ReplyBytes(s);
  }

  /** The reply header is the two word stores: 0 at Type/Code, then the
      patched checksum. */
  lemma ReplyBytes(s: seq<Byte>)
    requires |s| >= 4 && IsEchoRequest(s[..4])
    ensures Splice(s, 0, Replied(s[..4]))
            == Splice(Splice(s, 0, Le16Bytes(0)), 2, Le16Bytes(Checksum.Add(Le16(s, 2), ChecksumDelta)))
  {
    var c := Checksum.Add(Le16(s, 2), ChecksumDelta);
    SpliceAdjacent(s, 0, Le16Bytes(0), Le16Bytes(c));
    var h := s[..4];
    assert h[1] == 0 && h[2] == s[2] && h[3] == s[3];
    assert Le16(h, 2) == Le16(s, 2);
    assert Replied(h) == [0, 0] + Le16Bytes(c);
    assert Le16Bytes(0) == [0, 0];
  }
}
