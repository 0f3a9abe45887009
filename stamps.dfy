/**
 * Goal stamps: builtin_interfaces/Time {sec: int32, nanosec: uint32} and the
 * int64 nanosecond values the server computes with.  C's truncating `/` and `%`
 * and its narrowing conversions are written out, since Dafny's are Euclidean
 * and its integers unbounded.
 */
module Stamps {
  const NanosPerSecond: int := 1_000_000_000

  type Int32 = x: int | -0x8000_0000 <= x < 0x8000_0000
  type Uint32 = x: int | 0 <= x < 0x1_0000_0000
  type Int64 = x: int | -0x8000_0000_0000_0000 <= x < 0x8000_0000_0000_0000

  /** INT64_MAX */
  const Int64Max: Int64 := 0x7FFF_FFFF_FFFF_FFFF

  /** Whole seconds and a nanosecond part, as carried in a goal info. */
  datatype Time = Time(sec: Int32, nanosec: Uint32)

  /** A stamp at or after the epoch whose nanosecond part is below one second. */
  predicate Normalized(t: Time) {
    0 <= t.sec && t.nanosec < 1_000_000_000
  }

  /** RCUTILS_NS_TO_S: int64 division by 10^9, which C truncates toward zero. */
  function NsToS(ns: Int64): (s: int)
    ensures 0 <= ns ==> 0 <= s && s * 1_000_000_000 <= ns < s * 1_000_000_000 + 1_000_000_000
    ensures ns < 0 ==> s <= 0 && s * 1_000_000_000 - 1_000_000_000 < ns <= s * 1_000_000_000
  {
    if ns >= 0 then ns / 1_000_000_000 else -((-(ns as int)) / 1_000_000_000)
  }

  /** `ns % RCUTILS_S_TO_NS(1)` in C: the remainder takes the sign of the dividend. */
  function NsRem(ns: Int64): (r: int)
    ensures NsToS(ns) * 1_000_000_000 + r == ns
    ensures 0 <= ns ==> 0 <= r < 1_000_000_000
    ensures ns < 0 ==> -1_000_000_000 < r <= 0
  {
    if ns >= 0 then ns % 1_000_000_000 else -((-(ns as int)) % 1_000_000_000)
  }

  /** The `(int32_t)` conversion, wrapping modulo 2^32 as the usual two's-complement targets do. */
  function WrapToInt32(x: int): (r: Int32)
    ensures -0x8000_0000 <= x < 0x8000_0000 ==> r == x
    ensures (x - r) % 0x1_0000_0000 == 0
  {
    (x + 0x8000_0000) % 0x1_0000_0000 - 0x8000_0000
  }

  /** Assignment to a uint32_t field: C reduces the value modulo 2^32. */
  function WrapToUint32(x: int): (r: Uint32)
    ensures 0 <= x < 0x1_0000_0000 ==> r == x
    ensures (x - r) % 0x1_0000_0000 == 0
  {
    x % 0x1_0000_0000
  }

  /** _goal_info_stamp_to_nanosec: RCUTILS_S_TO_NS(sec) + nanosec, which cannot overflow int64. */
  function ToNanosec(t: Time): (ns: Int64)
    ensures Normalized(t) ==> 0 <= ns < 0x8000_0000 * 1_000_000_000
    ensures Normalized(t) ==> (ns == 0 <==> t == Time(0, 0))
  {
    t.sec * 1_000_000_000 + t.nanosec
  }

  /** _nanosec_to_goal_info_stamp: sec = (int32_t)(ns / 10^9), nanosec = ns % 10^9. */
  function FromNanosec(ns: Int64): (t: Time)
    ensures 0 <= ns < 0x8000_0000 * 1_000_000_000 ==> Normalized(t)
  {
    Time(WrapToInt32(NsToS(ns)), WrapToUint32(NsRem(ns)))
  }

  /** Every nanosecond count a Time can hold survives the trip through {sec, nanosec}. */
  lemma StampRoundTrip(ns: Int64)
    requires 0 <= ns < 0x8000_0000 * 1_000_000_000
    ensures FromNanosec(ns).nanosec < 1_000_000_000
    ensures ToNanosec(FromNanosec(ns)) == ns
  {
    var s := NsToS(ns);
    assert 0 <= s < 0x8000_0000;
  }

  /** Reading a normalized stamp as nanoseconds and converting back gives the same stamp. */
  lemma StampRoundTripFromTime(t: Time)
    requires Normalized(t)
    ensures FromNanosec(ToNanosec(t)) == t
  {
    var ns := ToNanosec(t);
    assert NsToS(ns) == t.sec;
  }

  /** Comparing normalized stamps as nanoseconds is comparing them lexicographically. */
  lemma ToNanosecMonotone(a: Time, b: Time)
    requires Normalized(a) && Normalized(b)
    ensures ToNanosec(a) <= ToNanosec(b) <==> a.sec < b.sec || (a.sec == b.sec && a.nanosec <= b.nanosec)
  {
    if a.sec < b.sec {
      assert a.sec * 1_000_000_000 + 1_000_000_000 <= b.sec * 1_000_000_000;
    } else if a.sec > b.sec {
      assert b.sec * 1_000_000_000 + 1_000_000_000 <= a.sec * 1_000_000_000;
    }
  }
}
