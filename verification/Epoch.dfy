/** Unfolding 32-bit NTP seconds around a pivot (libntp/ntp_calendar.c).  The
    pivot is the UN*X time the caller passes, or the current one. */
module Epoch {
  import opened Words
  import opened Periodic
  import opened DaySplit

  /** Seconds from the NTP epoch to the UN*X epoch: 25567 days. */
  const JAN_1970 := 2208988800

  /** ntpcal_ntp_to_time with 64-bit scalars. */
  function NtpToTime(ntp: u32, pivot: int): Wide
    requires InInt64(pivot)
  {
    var q := U64(pivot - TWO31);
    var n := U32(U32(ntp - JAN_1970) - q % TWO32);
    Split64(U64(q + n))
  }

  /** ntpcal_ntp_to_ntp with 64-bit scalars. */
  function NtpToNtp(ntp: u32, pivot: int): Wide
    requires InInt64(pivot)
  {
    var q := U64(U64(pivot - TWO31) + JAN_1970);
    var n := U32(ntp - q % TWO32);
    Split64(U64(q + n))
  }

  /** time_to_vint64 without 64-bit scalars. */
  function TimeToWide(tt: int): Wide
    requires InInt64(tt)
  {
    if tt < 0 then Neg(Split64(-tt)) else Split64(tt)
  }

  /** ntpcal_ntp_to_time on 32-bit words. */
  function NtpToTimeLimbs(ntp: u32, pivot: int): Wide
    requires InInt64(pivot)
  {
    var res := Sub(TimeToWide(pivot), Wide(0, TWO31));
    var n := U32(U32(ntp - JAN_1970) - res.lo);
    Add(res, Wide(0, n))
  }

  /** ntpcal_ntp_to_ntp on 32-bit words. */
  function NtpToNtpLimbs(ntp: u32, pivot: int): Wide
    requires InInt64(pivot)
  {
    var res := Add(Sub(TimeToWide(pivot), Wide(0, TWO31)), Wide(0, JAN_1970));
    var n := U32(ntp - res.lo);
    Add(res, Wide(0, n))
  }

  // --------------------------------------------------------------- properties

  lemma TimeToWideValue(tt: int)
    requires InInt64(tt)
    ensures TimeToWide(tt).Value() == U64(tt)
  {
  }

  /** The word-wise forms compute the same 64 bits. */
  lemma LimbFormsAgree(ntp: u32, pivot: int)
    requires InInt64(pivot)
    ensures NtpToTimeLimbs(ntp, pivot) == NtpToTime(ntp, pivot)
    ensures NtpToNtpLimbs(ntp, pivot) == NtpToNtp(ntp, pivot)
  {
    hide U32, U64, Add, Sub, TimeToWide;
    TimeToWideValue(pivot);
    var s := Sub(TimeToWide(pivot), Wide(0, TWO31));
    U64Diff(pivot, TWO31);
    LowWord(s);
    var t := Add(s, Wide(0, JAN_1970));
    LowWord(t);
    ValueInjective(NtpToTimeLimbs(ntp, pivot), NtpToTime(ntp, pivot));
    ValueInjective(NtpToNtpLimbs(ntp, pivot), NtpToNtp(ntp, pivot));
  }

  lemma LowWord(v: Wide)
    ensures v.Value() % TWO32 == v.lo
  {
  }

  lemma U64Diff(x: int, y: int)
    ensures U64(U64(x) - y) == U64(x - y)
  {
  }

  /** One unfolding step on wrapped words is the exact extension, wrapped. */
  lemma UnfoldStep(start: int, stamp: int)
    ensures U64(U64(start) + U32(stamp - U64(start) % TWO32)) == U64(Exact(start, stamp, TWO32))
  {
    hide U64, U32;
    CongruentLow(start);
    U64Plus(start, U32(stamp - U64(start) % TWO32));
    var k := (start - U64(start) % TWO32) / TWO32;
    DropCyclesStep(stamp - start, k);
    assert U32(stamp - start) == (stamp - start) % TWO32 by {
      Wrap32(stamp - start, (stamp - start) / TWO32);
    }
  }

  lemma CongruentLow(x: int)
    ensures x - U64(x) % TWO32 == (x - U64(x) % TWO32) / TWO32 * TWO32
  {
    var k := x / TWO64;
    assert x == k * TWO64 + U64(x);
    var m := U64(x) / TWO32;
    DivModUnique(x - U64(x) % TWO32, TWO32, k * TWO32 + m, 0);
  }

  /** The result is the periodic extension of the stamp with cycle 2^32 whose
      period starts half a cycle before the pivot, to 64 bits. */
  lemma NtpToNtpUnfolds(ntp: u32, pivot: int)
    requires InInt64(pivot)
    ensures NtpToNtp(ntp, pivot).Value() == U64(Exact(pivot + JAN_1970 - TWO31, ntp, TWO32))
  {
    hide U64, U32, Exact;
    U64Plus(pivot - TWO31, JAN_1970);
    UnfoldStep(pivot - TWO31 + JAN_1970, ntp);
  }

  lemma NtpToTimeUnfolds(ntp: u32, pivot: int)
    requires InInt64(pivot)
    ensures NtpToTime(ntp, pivot).Value() == U64(Exact(pivot - TWO31, ntp - JAN_1970, TWO32))
  {
    hide U64, Exact;
    UnfoldStep(pivot - TWO31, ntp - JAN_1970);
    var low := U64(pivot - TWO31) % TWO32;
    var x := ntp - JAN_1970;
    assert U32(U32(x) - low) == U32(x - low) by {
      DropCyclesStep(x - low, -(x / TWO32));
      assert U32(x) == x - x / TWO32 * TWO32;
    }
  }

  /** The unfolded stamp: the one value congruent to it that is at least
      pivot - 2^31 and below pivot + 2^31 on the NTP scale, returned whenever it
      is a 64-bit number. */
  lemma EpochUnfolding(ntp: u32, pivot: int, t: int)
    requires InInt64(pivot)
    requires InInt64(t) && t % TWO32 == ntp
    requires pivot + JAN_1970 - TWO31 <= t < pivot + JAN_1970 + TWO31
    ensures NtpToNtp(ntp, pivot).Signed() == t
  {
    hide U64, S64, Exact, NtpToNtp, NtpToTime;
    NtpToNtpUnfolds(ntp, pivot);
    var start := pivot + JAN_1970 - TWO31;
    assert (t - ntp) % TWO32 == 0 by {
      DivModUnique(t - ntp, TWO32, t / TWO32, 0);
    }
    ExactIsExtension(start, ntp, TWO32);
    ExtensionUnique(t, Exact(start, ntp, TWO32), start, ntp, TWO32);
    S64OfU64(t);
    SmallS64(t);
  }

  /** Both functions name the same instant, on their two scales. */
  lemma TwoScales(ntp: u32, pivot: int)
    requires InInt64(pivot)
    ensures U64(NtpToTime(ntp, pivot).Value() + JAN_1970) == NtpToNtp(ntp, pivot).Value()
  {
    hide U64, NtpToNtp, NtpToTime;
    NtpToNtpUnfolds(ntp, pivot);
    NtpToTimeUnfolds(ntp, pivot);
    U64Plus(Exact(pivot - TWO31, ntp - JAN_1970, TWO32), JAN_1970);
    assert ntp - JAN_1970 - (pivot - TWO31) == ntp - (pivot + JAN_1970 - TWO31);
  }
}
