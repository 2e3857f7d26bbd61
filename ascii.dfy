// The one-byte ASCII protocol between two time switches (Lib/ASCII.c): a
// request is the byte '?', an answer or broadcast is '0' or '1'.
module LibAscii {
  import opened Bytes
  import opened Wrappers

  /** The characters of the protocol, as bytes. */
  const CharOff: Byte := 0x30  // '0'
  const CharOn: Byte := 0x31   // '1'
  const CharQuery: Byte := 0x3F  // '?'

  /** The byte that carries a rule's value. */
  function Encode(value: bool): (c: Byte)
    ensures c == CharOn || c == CharOff
  {
    if value then CharOn else CharOff
  }

  /** ASCII_ProcessReply: a one-byte payload '0' or '1' gives the value;
      any other length or byte fails (None), and the caller's value is then
      left as it was. */
  function ProcessReply(frame: seq<Byte>, off: nat, length: U16): (r: Option<bool>)
    requires length == 1 ==> off < |frame|
    ensures r.Some? <==> length == 1 && (frame[off] == CharOff || frame[off] == CharOn)
    ensures r.Some? ==> (r.value <==> frame[off] == CharOn)
  {
    if length != 1 then None
    else if frame[off] == CharOff then Some(false)
    else if frame[off] == CharOn then Some(true)
    else None
  }

  /** ASCII_ProcessRequest: answers a one-byte request in place with the
      value; fails for any other length and then writes nothing. */
  method ProcessRequest(frame: array<Byte>, off: nat, length: U16, value: bool) returns (ok: bool)
    requires length == 1 ==> off < frame.Length
    modifies frame
    ensures ok == (length == 1)
    ensures frame[..] == if ok then old(frame[..])[off := Encode(value)] else old(frame[..])
  {
    if length != 1 {
      return false;
    }
    frame[off] := Encode(value);
    return true;
  }

  /** The answer written by ProcessRequest reads back as the value it
      carries. */
  lemma RequestThenReply(s: seq<Byte>, off: nat, value: bool)
    requires off < |s|
    ensures ProcessReply(s[off := Encode(value)], off, 1) == Some(value)
  {
  }

  /** ASCII_GenerateRequest. offset is the int8_t that UDP_GenerateUnicast
      (not part of this model) returned: negative (an ARP request was
      written instead) is passed through; otherwise '?' follows the
      headers and the offset after it is returned. */
  method GenerateRequest(frame: array<Byte>, offset: Int8) returns (r: Int8)
    requires offset >= 0 ==> offset < frame.Length
    modifies frame
    ensures offset < 0 ==> r == offset && frame[..] == old(frame[..])
    ensures offset >= 0 ==> r == ToInt8(offset + 1) && frame[..] == old(frame[..])[offset := CharQuery]
  {
    if offset < 0 {
      return offset;
    }
    frame[offset] := CharQuery;
    r := ToInt8(offset + 1);
  }

  /** ASCII_GenerateBroadcast. offset is the uint8_t that
      UDP_GenerateBroadcast (not part of this model) returned; the value
      follows the headers and the uint8_t offset after it is returned. */
  method GenerateBroadcast(frame: array<Byte>, offset: Byte, value: bool) returns (r: Byte)
    requires offset < frame.Length
    modifies frame
    ensures r == (offset + 1) % 0x100
    ensures frame[..] == old(frame[..])[offset := Encode(value)]
  {
    frame[offset] := Encode(value);
    r := (offset + 1) % 0x100;
  }

  /** A request is never mistaken for an answer. */
  lemma QueryIsNoAnswer(s: seq<Byte>, off: nat)
    requires off < |s| && s[off] == CharQuery
    ensures ProcessReply(s, off, 1) == None
  {
  }
}
