// Local time of the switch: the conversion of a local time to UTC that
// calculateTimestamp makes (rules.c, from the time zone avr-libc holds at run
// time; timestamp.h, for Central European Time, UTC+1, with the EU
// summer-time rule computed by integer arithmetic), and the cached
// broken-down time of the current day together with the next local midnight,
// which both files keep alike. time_t is avr-libc's uint32_t count of seconds
// since 2000-01-01 00:00 UTC. The C time library (localtime_r, mk_gmtime) and
// the zone are passed in.
module Timestamp {
  import opened Bytes
  import opened Wrappers
  import Bits

  /** 2^32: time_t arithmetic wraps modulo this. */
  const TimeModulus: nat := 0x1_0000_0000

  /** UTC_OFFSET: one hour. */
  const UtcOffset: nat := 3600

  /** Seconds in a week. */
  const Week: nat := 604800

  /** The offset that puts the start of each week of eu_dst on a Sunday, 01:00 UTC. */
  const WeekShift: nat := 655513200

  /** The amount eu_dst subtracts from times from 194 * 2^24 on: 5009 weeks. */
  const Rebase: nat := 3029443200

  /** The first time the rebase applies to: (t >> 24) >= 194. */
  const RebaseFrom: nat := 194 * 0x100_0000

  /** The first step of eu_dst: times from RebaseFrom on are moved back by a
      whole number of weeks, so that adding WeekShift cannot overflow. */
  function Rebased(t: U32): (c: nat)
    ensures c + WeekShift < TimeModulus
    ensures c % Week == t % Week
    ensures t < RebaseFrom ==> c == t
  {
    if t / 0x100_0000 >= 194 then t - Rebase else t
  }

  /** Index of the week (from Sunday 01:00 UTC) that eu_dst works with. */
  function WeekOf(t: U32): nat
  {
    (Rebased(t) + WeekShift) / Week
  }

  /** eu_dst: 3600 seconds of summer time, or 0. The week index times 28 is a
      day count in a 1461-day (four-year) cycle; summer time is the first 856
      days' worth of it. The unused second argument is not modelled. */
  function EuDst(t: U32): (r: nat)
    ensures r == 3600 || r == 0
  {
    var days := WeekOf(t) * 28;
    // (uint16_t) of a value below 1461 keeps it.
    if days % 1461 < 856 then 3600 else 0
  }

  /** Summer time starts and ends only at a week boundary of eu_dst, Sunday
      01:00 UTC (the EU rule), apart from the one step at RebaseFrom. */
  lemma EuDstChangesOnSundays(t: U32)
    requires 0 < t && t != RebaseFrom && t % Week != 90000
    ensures EuDst(t) == EuDst(t - 1)
  {
    var x := Rebased(t - 1) + WeekShift;
    assert Rebased(t) + WeekShift == x + 1;
    var q, r := Rebased(t) / Week, Rebased(t) % Week;
    assert r == t % Week;
    // WeekShift is 1083 weeks and 514800 seconds.
    var q1, r1 := if r < 90000 then q + 1083 else q + 1084, if r < 90000 then r + 514800 else r - 90000;
    Bits.DivModUnique(x + 1, Week, q1, r1);
    Bits.DivModUnique(x, Week, q1, r1 - 1);
  }

  /** In 2021, summer time began on 28 March and ended on 31 October, at 01:00
      UTC: eu_dst switches at exactly those seconds. */
  lemma EuDst2021()
    ensures EuDst(670208399) == 0 && EuDst(670208400) == 3600
    ensures EuDst(688957199) == 3600 && EuDst(688957200) == 0
  {
    assert WeekOf(670208399) == 2191 && WeekOf(670208400) == 2192;
    assert WeekOf(688957199) == 2222 && WeekOf(688957200) == 2223;
  }

  /** The UTC time of a local time that mk_gmtime converted as if it were
      UTC: the zone offset and then the summer-time offset of the result are
      subtracted, with time_t wrap-around. */
  function LocalToUtc(gm: U32): (r: U32)
    ensures (r + UtcOffset + EuDst((gm - UtcOffset) % TimeModulus)) % TimeModulus == gm
    ensures gm >= 2 * UtcOffset ==> r == gm - UtcOffset || r == gm - 2 * UtcOffset
  {
    var standard := (gm - UtcOffset) % TimeModulus;
    var e := EuDst(standard);
    Bits.ModAdd(standard - e, e + UtcOffset, TimeModulus);
    Bits.ModAdd(gm - UtcOffset, UtcOffset, TimeModulus);
    Bits.DivModUnique(gm, TimeModulus, 0, gm);
    (standard - e) % TimeModulus
  }

  /** The time zone avr-libc's time functions read: __utc_offset, in seconds
      east of UTC, and __dst_ptr, the summer-time function when one is set.
      That function is given the time and a pointer to the UTC offset; what
      it could write through the pointer is not modelled. */
  datatype Zone = Zone(utcOffset: Int32, dst: Option<(U32, Int32) -> Int16>)

  /** The summer-time offset of the zone at t: 0 without a summer-time function. */
  function DstAt(zone: Zone, t: U32): Int16
  {
    if zone.dst.Some? then zone.dst.value(t, zone.utcOffset) else 0
  }

  /** The zone timestamp.h fixes: UTC_OFFSET with eu_dst. */
  const CentralEurope: Zone := Zone(UtcOffset, Some((t: U32, z: Int32) => EuDst(t)))

  /** calculateTimestamp of rules.c: the UTC time of a local time that
      mk_gmtime converted as if it were UTC. The zone's offset is subtracted
      and, when the zone has a summer-time function, that function's value at
      the result as well; time_t arithmetic wraps. Adding both back gives the
      local time. */
  function ToUtc(zone: Zone, gm: U32): (r: U32)
    ensures (r + zone.utcOffset + DstAt(zone, (gm - zone.utcOffset) % TimeModulus)) % TimeModulus == gm
  {
    var standard := (gm - zone.utcOffset) % TimeModulus;
    var e := DstAt(zone, standard);
    Bits.ModAdd(standard - e, e + zone.utcOffset, TimeModulus);
    Bits.ModAdd(gm - zone.utcOffset, zone.utcOffset, TimeModulus);
    Bits.DivModUnique(gm, TimeModulus, 0, gm);
    (standard - e) % TimeModulus
  }

  /** timestamp.h's calculateTimestamp is the one of rules.c for the zone
      UTC+1 with eu_dst as its summer-time function. */
  lemma CentralEuropeToUtc(gm: U32)
    ensures ToUtc(CentralEurope, gm) == LocalToUtc(gm)
  {
  }

  /** struct tm of avr-libc. */
  datatype Tm = Tm(sec: int, min: int, hour: int, mday: int, wday: int, mon: int,
                   year: int, yday: int, isdst: int)

  /** The zero-initialised struct tm. */
  const ZeroTm: Tm := Tm(0, 0, 0, 0, 0, 0, 0, 0, 0)

  /** The cached struct tm of getStructTM and _nextMidnight, as values. */
  datatype Cache = Cache(tm: Tm, midnight: U32)

  /** The cache after getStructTM(now) in the zone: from the cached midnight
      on, tm becomes the local time of now without seconds, with hour 24 and
      minute 0 written by calculateTimestamp, and the midnight becomes that
      local time in UTC; before it, nothing changes. */
  function Refreshed(c: Cache, now: U32, localtime: U32 -> Tm, mkGmtime: Tm -> U32, zone: Zone): (r: Cache)
    ensures now < c.midnight ==> r == c
    ensures now >= c.midnight ==> r.tm.sec == 0 && r.tm.hour == 24 && r.tm.min == 0
    ensures now >= c.midnight ==> r.tm == localtime(now).(sec := 0, hour := 24, min := 0)
    ensures now >= c.midnight ==> r.midnight == ToUtc(zone, mkGmtime(r.tm))
  {
    if now < c.midnight then c
    else
      var tm := localtime(now).(sec := 0, hour := 24, min := 0);
      Cache(tm, ToUtc(zone, mkGmtime(tm)))
  }

  /** The static struct tm and _nextMidnight of getStructTM (rules.c and
      timestamp.h alike). */
  class Clock {
    var tm: Tm
    var nextMidnight: U32

    constructor ()
      ensures tm == ZeroTm && nextMidnight == 0
    {
      tm := ZeroTm;
      nextMidnight := 0;
    }

    /** getMidnight: the cached next local midnight. */
    function GetMidnight(): U32
      reads this
    {
      nextMidnight
    }

    /** calculateTimestamp: sets the time of day in tm and converts it to
        UTC in the zone. */
    method CalculateTimestamp(hour: Int8, min: Int8, mkGmtime: Tm -> U32, zone: Zone) returns (t: U32)
      modifies this
      ensures tm == old(tm).(hour := hour, min := min)
      ensures nextMidnight == old(nextMidnight)
      ensures t == ToUtc(zone, mkGmtime(tm))
    {
      tm := tm.(hour := hour, min := min);
      var retVal := (mkGmtime(tm) - zone.utcOffset) % TimeModulus;
      if zone.dst.Some? {
        t := (retVal - zone.dst.value(retVal, zone.utcOffset)) % TimeModulus;
      } else {
        t := retVal;
      }
    }

    /** getStructTM: refreshes the cache when now has reached the cached
        midnight and returns the cached struct tm. */
    method GetStructTm(now: U32, localtime: U32 -> Tm, mkGmtime: Tm -> U32, zone: Zone) returns (r: Tm)
      modifies this
      ensures Cache(tm, nextMidnight) == Refreshed(old(Cache(tm, nextMidnight)), now, localtime, mkGmtime, zone)
      ensures r == tm
    {
      if now >= nextMidnight {
        tm := localtime(now);
        tm := tm.(sec := 0);
        nextMidnight := CalculateTimestamp(24, 0, mkGmtime, zone);
      }
      r := tm;
    }
  }
}
