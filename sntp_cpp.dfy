// SNTP client of the C++ rewrite (c++/net/SNTP.c): the same frac2timer,
// checks and request as the C stack; an accepted answer also sets the
// system clock.
module CppSntp {
  import opened Bytes
  import opened Wrappers
  import LibSntp

  /** SNTP_ProcessPacket: the answer is checked and converted as in the C
      stack; when it is accepted the new time is also handed to
      set_system_time (returned as systemTime). */
  method ProcessPacket(frame: array<Byte>, off: nat, length: U16)
    returns (time: U32, tcnt1: Option<U16>, systemTime: Option<U32>)
    requires length == LibSntp.HeaderLen ==> off + LibSntp.HeaderLen <= frame.Length
    ensures length != LibSntp.HeaderLen ==> time == 0 && tcnt1 == None && systemTime == None
    ensures length == LibSntp.HeaderLen ==>
              var s := frame[off..off + LibSntp.HeaderLen];
              && (LibSntp.Acceptable(s) ==>
                    && time == LibSntp.NewTime(s)
                    && tcnt1 == Some(LibSntp.Ticks(Be32(s, LibSntp.TransmitSub)))
                    && systemTime == Some(time))
              && (!LibSntp.Acceptable(s) ==> time == 0 && tcnt1 == None && systemTime == None)
  {
    time, tcnt1 := LibSntp.ProcessPacket(frame, off, length);
    systemTime := if tcnt1.Some? then Some(time) else None;
  }
}
