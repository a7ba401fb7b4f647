/** arv_gvsp_packet_get_timestamp and its split conversion: whole seconds
    times 10^9 plus the scaled remainder is the exact floor of
    `ticks * 10^9 / frequency` as long as no `guint64` step wraps. */
module GvspTimestamp {
  import opened Bytes
  import opened Gvsp

  /** The exact nanosecond count of `ticks` at `frequency` ticks per second. */
  ghost function ExactNs(ticks: nat, frequency: nat): nat
    requires frequency >= 1
  {
    ticks * 1_000_000_000 / frequency
  }

  /** Neither the remainder scaling nor the final sum leaves 64 bits. */
  predicate NoOverflow(ticks: nat64, frequency: nat64)
    requires frequency >= 1
  {
    && (ticks % frequency) * 1_000_000_000 < Uint64Modulus
    && (ticks / frequency) * 1_000_000_000 + (ticks % frequency) * 1_000_000_000 / frequency < Uint64Modulus
  }

  /** A positive multiple of `f` is at least `f`. */
  lemma MulAtLeast(d: int, f: int)
    ensures d >= 1 && f >= 1 ==> d * f >= f
  {
    if d >= 1 && f >= 1 {
      assert d * f == (d - 1) * f + f;
    }
  }

  /** Euclidean division of `q * f + m`, with `0 <= m < f`, gives back `q`. */
  lemma DivUnique(x: int, f: int, q: int, m: int)
    requires f >= 1 && 0 <= m < f && x == q * f + m
    ensures x / f == q && x % f == m
  {
    var q', m' := x / f, x % f;
    assert x == q' * f + m';
    assert (q - q') * f == m' - m;
    assert (q' - q) * f == -((q - q') * f);
    MulAtLeast(q - q', f);
    MulAtLeast(q' - q, f);
  }

  /** Adding whole multiples of `f` adds whole quotients. */
  lemma DivAddMultiple(a: nat, b: nat, f: nat)
    requires f >= 1
    ensures (a * f + b) / f == a + b / f
  {
    var q, m := b / f, b % f;
    assert b == q * f + m;
    assert a * f + b == (a + q) * f + m;
    DivUnique(a * f + b, f, a + q, m);
  }

  /** The conversion of arv_gvsp_packet_get_timestamp, every step on
      `guint64`: whole seconds scaled to nanoseconds, plus the remainder
      scaled then divided. Without wrap-around it is the exact floor. */
  function TicksToNs(ticks: nat64, frequency: nat64): (ns: nat64)
    requires frequency >= 1
    ensures NoOverflow(ticks, frequency) ==> ns == ExactNs(ticks, frequency)
  {
    var scaledSeconds := (ticks / frequency) * 1_000_000_000;
    var scaledRemainder := (ticks % frequency) * 1_000_000_000;
    SplitSumWithoutWrap(ticks, frequency);
    Wrap64(Wrap64(scaledRemainder) / frequency + Wrap64(scaledSeconds))
  }

  /** arv_gvsp_packet_get_timestamp: 0 for a frequency below one tick per
      second, otherwise the leader's tick count converted. */
  function GetTimestamp(p: seq<uint8>, frequency: nat64): (ns: nat64)
    requires frequency >= 1 ==> HasLeaderField(p, LeaderTimestampHighAt, 8)
    ensures frequency < 1 ==> ns == 0
    ensures frequency >= 1 && NoOverflow(GetTicks(p), frequency) ==> ns == ExactNs(GetTicks(p), frequency)
  {
    if frequency < 1 then 0 else TicksToNs(GetTicks(p), frequency)
  }

  /** Without wrap-around the wrapping split sum is the exact floor. */
  lemma SplitSumWithoutWrap(ticks: nat64, frequency: nat64)
    requires frequency >= 1
    ensures NoOverflow(ticks, frequency) ==>
      Wrap64(Wrap64((ticks % frequency) * 1_000_000_000) / frequency + Wrap64((ticks / frequency) * 1_000_000_000))
      == ExactNs(ticks, frequency)
  {
    if NoOverflow(ticks, frequency) {
      QuotientNonNegative(ticks, frequency);
      WrapSum((ticks % frequency) * 1_000_000_000, (ticks / frequency) * 1_000_000_000, frequency);
      SplitSumIsExact(ticks, frequency);
    }
  }

  /** Euclidean division of a natural number by a positive one is natural. */
  lemma QuotientNonNegative(x: nat, f: nat)
    requires f >= 1
    ensures x / f >= 0
  {
    var q := x / f;
    assert x == q * f + x % f;
    MulAtLeast(-q, f);
    assert (-q) * f == -(q * f);
  }

  /** The wrapping steps are the identity on values that fit. */
  lemma WrapSum(scaledRemainder: nat, scaledSeconds: nat, frequency: nat)
    requires frequency >= 1
    requires scaledRemainder < Uint64Modulus
    requires scaledSeconds + scaledRemainder / frequency < Uint64Modulus
    ensures Wrap64(Wrap64(scaledRemainder) / frequency + Wrap64(scaledSeconds))
      == scaledSeconds + scaledRemainder / frequency
  {
    assert Wrap64(scaledRemainder) == scaledRemainder;
    assert Wrap64(scaledSeconds) == scaledSeconds;
  }

  /** The split sum is the exact floor. */
  lemma SplitSumIsExact(ticks: nat, frequency: nat)
    requires frequency >= 1
    ensures (ticks / frequency) * 1_000_000_000 + (ticks % frequency) * 1_000_000_000 / frequency
      == ExactNs(ticks, frequency)
  {
    var s, r := ticks / frequency, ticks % frequency;
    assert ticks == s * frequency + r;
    assert ticks * 1_000_000_000 == (s * 1_000_000_000) * frequency + r * 1_000_000_000;
    DivAddMultiple(s * 1_000_000_000, r * 1_000_000_000, frequency);
  }

  /** A sufficient condition for exactness: a tick frequency of at most
      18.4 GHz and a time stamp under about 584 years. */
  lemma NoOverflowWhenBounded(ticks: nat64, frequency: nat64)
    requires 1 <= frequency <= 18_446_744_073
    requires ticks / frequency <= 18_446_744_072
    ensures NoOverflow(ticks, frequency)
  {
    var s, r := ticks / frequency, ticks % frequency;
    assert r * 1_000_000_000 <= 18_446_744_072 * 1_000_000_000;
    assert r * 1_000_000_000 / frequency < 1_000_000_000 by {
      var q := r * 1_000_000_000 / frequency;
      assert r * 1_000_000_000 == q * frequency + r * 1_000_000_000 % frequency;
      assert (q - 1_000_000_000) * frequency == q * frequency - 1_000_000_000 * frequency;
      assert r * 1_000_000_000 < frequency * 1_000_000_000;
      MulAtLeast(q - 1_000_000_000 + 1, frequency);
    }
    assert s * 1_000_000_000 <= 18_446_744_072 * 1_000_000_000;
  }

  /** One second's worth of ticks converts to exactly 10^9 nanoseconds. */
  lemma OneSecond(frequency: nat64)
    requires frequency >= 1
    ensures TicksToNs(frequency, frequency) == 1_000_000_000
  {
    DivUnique(frequency, frequency, 1, 0);
    DivUnique(frequency * 1_000_000_000, frequency, 1_000_000_000, 0);
    assert NoOverflow(frequency, frequency);
  }

  /** The conversion of a packet's leader time stamp is exact whenever
      the frequency and the time stamp are within the bounds above. */
  lemma PacketTimestampIsExact(p: seq<uint8>, frequency: nat64)
    requires HasLeaderField(p, LeaderTimestampHighAt, 8)
    requires 1 <= frequency <= 18_446_744_073
    requires GetTicks(p) / frequency <= 18_446_744_072
    ensures GetTimestamp(p, frequency) == ExactNs(GetTicks(p), frequency)
  {
    NoOverflowWhenBounded(GetTicks(p), frequency);
  }

  /** A tick frequency too high for the remainder scaling: the result wraps
      and falls short of the exact value. */
  lemma RemainderScalingWraps()
    ensures TicksToNs(0x8000_0000_0000_0000 - 1, 0x8000_0000_0000_0000) != ExactNs(0x8000_0000_0000_0000 - 1, 0x8000_0000_0000_0000)
  {
  }
}
