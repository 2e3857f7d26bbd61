// SNTP client of the C stack (Lib/SNTP.c), RFC 4330: the request it sends,
// the checks it makes on a server's answer, and frac2timer, which turns the
// NTP fraction of a second into Timer1 ticks.
module LibSntp {
  import opened Bytes
  import opened Wrappers
  import Bits

  /** sizeof(SNTP_Header_t). */
  const HeaderLen: nat := 48

  /** SNTP_VERSIONMODECLIENT (version 3, mode 3) and SNTP_VERSIONMODESERVER
      (version 3, mode 4). */
  const VersionModeClient: Byte := 0x1B
  const VersionModeServer: Byte := 0x1C

  /** NTP_OFFSET of avr-libc: seconds from 1900-01-01 (the NTP era) to
      2000-01-01 (the epoch of its time_t). */
  const NtpOffset: nat := 3155673600

  /** One timer period of Timer1 holds the ticks 0..62498. */
  const TimerTop: nat := 62498

  // -------------------------------------------------------------------
  // frac2timer

  /** The shifts k whose term fract >> k the loop adds: iteration i adds
      after the (16 - i)-th shift, for i in {15, 14, 13, 12, 10, 5, 1}. */
  predicate Added(k: nat)
  {
    k == 1 || k == 2 || k == 3 || k == 4 || k == 6 || k == 11 || k == 15
  }

  /** fract after n shifts by one. */
  function Shifted(f: nat, n: nat): nat
  {
    if n == 0 then f else Shifted(f, n - 1) / 2
  }

  /** The accumulator after the first n shifts. */
  function Accumulated(f: nat, n: nat): nat
  {
    if n == 0 then 0
    else Accumulated(f, n - 1) + (if Added(n) then Shifted(f, n) else 0)
  }

  /** The accumulator after all fifteen shifts: the sum of f >> k over the
      added k, which approximates f * 31249 / 2^15. */
  function Scaled(f: nat): nat
  {
    f / 2 + f / 4 + f / 8 + f / 16 + f / 64 + f / 2048 + f / 32768
  }

  /** The ticks frac2timer returns: the accumulator rounded to its upper 16
      bits. They stay within one timer period, 0..62498. */
  function Ticks(f: U32): (t: U16)
    ensures t <= TimerTop
  {
    ScaledBelow(f);
    (Scaled(f) + 32768) / 0x1_0000
  }

  /** The intended value: round(f * 62498 / 2^32). */
  function Rounded(f: U32): nat
  {
    (f * 62498 + 0x8000_0000) / 0x1_0000_0000
  }

  /** Halving a quotient halves the divisor. */
  lemma HalfOf(f: nat, p: nat)
    requires p >= 1
    ensures f / p / 2 == f / (2 * p)
  {
    var q := f / p / 2;
    var r := (f % p) + p * ((f / p) % 2);
    assert f == (2 * p) * q + r;
    Bits.DivModUnique(f, 2 * p, q, r);
  }

  /** The accumulator only grows. */
  lemma {:induction false} AccumulatedMonotone(f: nat, m: nat, n: nat)
    requires m <= n
    ensures Accumulated(f, m) <= Accumulated(f, n)
  {
    if m < n {
      AccumulatedMonotone(f, m, n - 1);
    }
  }

  /** The shifted values the loop adds, as quotients. */
  lemma ShiftedValues(f: nat)
    ensures Shifted(f, 1) == f / 2 && Shifted(f, 2) == f / 4 && Shifted(f, 3) == f / 8
    ensures Shifted(f, 4) == f / 16 && Shifted(f, 6) == f / 64
    ensures Shifted(f, 11) == f / 2048 && Shifted(f, 15) == f / 32768
  {
    assert Shifted(f, 1) == f / 2;
    HalfOf(f, 2);
    assert Shifted(f, 2) == f / 4;
    HalfOf(f, 4);
    assert Shifted(f, 3) == f / 8;
    HalfOf(f, 8);
    assert Shifted(f, 4) == f / 16;
    HalfOf(f, 16);
    assert Shifted(f, 5) == f / 32;
    HalfOf(f, 32);
    assert Shifted(f, 6) == f / 64;
    HalfOf(f, 64);
    assert Shifted(f, 7) == f / 128;
    HalfOf(f, 128);
    assert Shifted(f, 8) == f / 256;
    HalfOf(f, 256);
    assert Shifted(f, 9) == f / 512;
    HalfOf(f, 512);
    assert Shifted(f, 10) == f / 1024;
    HalfOf(f, 1024);
    assert Shifted(f, 11) == f / 2048;
    HalfOf(f, 2048);
    assert Shifted(f, 12) == f / 4096;
    HalfOf(f, 4096);
    assert Shifted(f, 13) == f / 8192;
    HalfOf(f, 8192);
    assert Shifted(f, 14) == f / 16384;
    HalfOf(f, 16384);
    assert Shifted(f, 15) == f / 32768;
  }

  /** After all shifts the accumulator is Scaled(f). */
  lemma AccumulatedAll(f: nat)
    ensures Accumulated(f, 15) == Scaled(f)
  {
    ShiftedValues(f);
    assert Accumulated(f, 1) == f / 2;
    assert Accumulated(f, 2) == f / 2 + f / 4;
    assert Accumulated(f, 4) == Accumulated(f, 2) + f / 8 + f / 16;
    assert Accumulated(f, 5) == Accumulated(f, 4);
    assert Accumulated(f, 6) == Accumulated(f, 4) + f / 64;
    assert Accumulated(f, 8) == Accumulated(f, 6);
    assert Accumulated(f, 10) == Accumulated(f, 6);
    assert Accumulated(f, 11) == Accumulated(f, 6) + f / 2048;
    assert Accumulated(f, 13) == Accumulated(f, 11);
    assert Accumulated(f, 14) == Accumulated(f, 11);
  }

  /** Each term is at most, and less than one below, its exact value. */
  lemma ScaledBounds(f: nat)
    ensures 32768 * Scaled(f) <= f * 31249
    ensures 32768 * Scaled(f) > f * 31249 - 7 * 32768
  {
  }

  /** The 32-bit accumulator plus the rounding constant never overflows. */
  lemma NoOverflow(f: U32)
    ensures Scaled(f) + 32768 < 0x1_0000_0000
  {
    ScaledBounds(f);
  }

  /** No partial sum overflows the 32-bit accumulator either. */
  lemma AccumulatedFits(f: U32, n: nat)
    requires n <= 15
    ensures Accumulated(f, n) + 32768 < 0x1_0000_0000
  {
    AccumulatedMonotone(f, n, 15);
    AccumulatedAll(f);
    NoOverflow(f);
  }

  /** The accumulator is small enough for the rounded result to stay
      within one timer period. */
  lemma ScaledBelow(f: U32)
    ensures Scaled(f) < TimerTop * 0x1_0000 + 32768
  {
    ScaledBounds(f);
    assert 32768 * Scaled(f) < 31249 * 0x1_0000_0000;
  }

  /** frac2timer is round(f * 62498 / 2^32) or one less: the seven
      truncated shifts lose less than one tick together. */
  lemma TicksRounded(f: U32)
    ensures Rounded(f) - 1 <= Ticks(f) <= Rounded(f)
  {
    ScaledBounds(f);
    var s := Scaled(f);
    assert Ticks(f) == (32768 * s + 0x4000_0000) / 0x8000_0000;
    assert Rounded(f) == (f * 31249 + 0x4000_0000) / 0x8000_0000;
  }

  /** frac2timer: fifteen times shift fract right by one and add it to the
      accumulator after the shifts the switch selects; round the 32-bit
      accumulator to its upper 16 bits. */
  method Frac2Timer(fract: U32) returns (r: U16)
    ensures r == Ticks(fract)
  {
    var retVal: U32 := 0;
    var f: U32 := fract;
    var i := 15;
    while i > 0
      invariant 0 <= i <= 15
      invariant f == Shifted(fract, 15 - i)
      invariant retVal == Accumulated(fract, 15 - i)
    {
      f := f / 2;
      if i == 1 || i == 5 || i == 10 || i == 12 || i == 13 || i == 14 || i == 15 {
        AccumulatedFits(fract, 16 - i);
        retVal := retVal + f;
      }
      i := i - 1;
    }
    AccumulatedFits(fract, 15);
    AccumulatedAll(fract);
    ScaledBelow(fract);
    r := (retVal + 32768) / 0x1_0000;
  }

  // -------------------------------------------------------------------
  // Answers and requests

  /** Offsets of VersionMode and of the two words of the transmit timestamp
      in SNTP_Header_t. */
  const TransmitSec: nat := 40
  const TransmitSub: nat := 44

  /** VersionMode & 0x3F: version and mode. */
  function VersionAndMode(versionMode: Byte): (r: Byte)
    ensures r == versionMode % 0x40
  {
    Bits.Pow2Values();
    assert Bits.Pow2(6) == 0x40;
    Bits.AndLowMask(versionMode, 6);
    Bits.And(versionMode, 0x3F)
  }

  /** (VersionMode & 0xC0) == 0xC0: leap indicator 3, "clock not
      synchronised" (RFC 4330 section 5). */
  predicate Unsynchronised(versionMode: Byte)
  {
    versionMode / 0x40 == 3
  }

  /** The answers SNTP_ProcessPacket takes: version 3 from a server, a
      synchronised clock and a transmit timestamp that is not all zero. */
  predicate Acceptable(s: seq<Byte>)
    requires |s| == HeaderLen
  {
    VersionAndMode(s[0]) == VersionModeServer && !Unsynchronised(s[0])
    && !(Be32(s, TransmitSec) == 0 && Be32(s, TransmitSub) == 0)
  }

  /** The time an answer sets: the transmit seconds moved from the NTP era to
      the time_t epoch, as a uint32_t difference. */
  function NewTime(s: seq<Byte>): (t: U32)
    requires |s| == HeaderLen
    ensures (t + NtpOffset) % 0x1_0000_0000 == Be32(s, TransmitSec)
  {
    (Be32(s, TransmitSec) - NtpOffset) % 0x1_0000_0000
  }

  /** SNTP_ProcessPacket without the round-trip correction: 0 unless the
      payload is exactly one header and acceptable; otherwise the new time,
      and Timer1 (TCNT1, returned as tcnt1) set from the transmit fraction. */
  method ProcessPacket(frame: array<Byte>, off: nat, length: U16) returns (time: U32, tcnt1: Option<U16>)
    requires length == HeaderLen ==> off + HeaderLen <= frame.Length
    ensures length != HeaderLen ==> time == 0 && tcnt1 == None
    ensures length == HeaderLen ==>
              var s := frame[off..off + HeaderLen];
              && (Acceptable(s) ==> time == NewTime(s) && tcnt1 == Some(Ticks(Be32(s, TransmitSub))))
              && (!Acceptable(s) ==> time == 0 && tcnt1 == None)
  {
    if length != HeaderLen {
      return 0, None;
    }
    var s := frame[off..off + HeaderLen];
    if VersionAndMode(s[0]) != VersionModeServer || Unsynchronised(s[0])
       || (Be32(s, TransmitSec) == 0 && Be32(s, TransmitSub) == 0) {
      return 0, None;
    }
    var ticks := Frac2Timer(Be32(s, TransmitSub));
    tcnt1 := Some(ticks);
    time := NewTime(s);
  }

  /** The request SNTP_GeneratePacket writes: all zero but VersionMode. */
  function Request(): (s: seq<Byte>)
    ensures |s| == HeaderLen && s[0] == VersionModeClient
  {
    [VersionModeClient] + seq(HeaderLen - 1, _ => 0)
  }

  /** A request is never taken for an answer: its mode is client, not server. */
  lemma RequestNotAnswer()
    ensures !Acceptable(Request())
  {
    assert VersionAndMode(Request()[0]) == VersionModeClient;
  }

  /** SNTP_GeneratePacket. offset is the int8_t that UDP_GenerateHeader (not
      part of this model) returned: negative is passed through; otherwise
      the request follows the headers and the int8_t offset after it is
      returned. */
  method GeneratePacket(frame: array<Byte>, offset: Int8) returns (r: Int8)
    requires offset >= 0 ==> offset + HeaderLen <= frame.Length
    modifies frame
    ensures offset < 0 ==> r == offset && frame[..] == old(frame[..])
    ensures offset >= 0 ==> r == ToInt8(offset + HeaderLen) && frame[..] == Splice(old(frame[..]), offset, Request())
  {
    if offset < 0 {
      return offset;
    }
    Store(frame, offset, seq(HeaderLen, _ => 0));
    frame[offset] := VersionModeClient;
    assert frame[..] == Splice(old(frame[..]), offset, Request());
    r := ToInt8(offset + HeaderLen);
  }
}
