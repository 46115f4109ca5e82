/** Rounded expiries: RequestData.Expiration and the token's time check. */
module Expiry {
  import opened Bytes

  const NANOS := 1_000_000_000

  /** Seconds from the zero time (1 January of year 1), which Round counts from, to the Unix epoch. */
  const UNIX_EPOCH := 62135596800

  /** A time in nanoseconds since the zero time. */
  type Time = int

  /** time.Time.Round: halfway values round up, and a non-positive unit leaves the time alone. */
  function Round(t: Time, d: int): Time {
    if d <= 0 then t
    else
      var r := t % d;
      if r + r < d then t - r else t + (d - r)
  }

  function Expiration(t: Time, d: int): Time {
    Round(t + d, d)
  }

  /** time.Time.Unix */
  function UnixSeconds(t: Time): int {
    t / NANOS - UNIX_EPOCH
  }

  /** jwt.NumericDate.Time */
  function FromUnix(seconds: int): Time {
    (seconds + UNIX_EPOCH) * NANOS
  }

  /** The expiry test of VerifyChallengeToken, on a stored second and a clock reading. */
  predicate TimeCheckPasses(expirySecond: int, clock: Time) {
    FromUnix(expirySecond) >= clock
  }

  predicate WholeSeconds(d: int) {
    d > 0 && d % NANOS == 0
  }

  function Distance(a: Time, b: Time): nat {
    if a < b then b - a else a - b
  }

  lemma RoundIsMultiple(t: Time, d: int)
    requires d > 0
    ensures Round(t, d) == (t / d) * d || Round(t, d) == (t / d + 1) * d
    ensures Round(t, d) % d == 0
  {
    assert t == (t / d) * d + t % d;
    assert (t / d + 1) * d == (t / d) * d + d;
    DivModOf(t / d, 0, d);
    DivModOf(t / d + 1, 0, d);
  }

  /** The expiry is the multiple of d nearest to t + d, and the later of two equally near ones. */
  lemma ExpirationIsNearest(t: Time, d: int, m: Time)
    requires d > 0 && m % d == 0
    ensures Expiration(t, d) % d == 0
    ensures Distance(Expiration(t, d), t + d) <= Distance(m, t + d)
    ensures Distance(Expiration(t, d), t + d) == Distance(m, t + d) ==> m <= Expiration(t, d)
  {
    var x := t + d;
    var q, k := x / d, m / d;
    RoundIsMultiple(x, d);
    assert x == q * d + x % d && m == k * d;
    if k <= q {
      ScaleMonotone(k, q, d);
    } else {
      ScaleMonotone(q + 1, k, d);
      assert (q + 1) * d == q * d + d;
    }
  }

  lemma ScaleMonotone(a: int, b: int, d: int)
    requires a <= b && d > 0
    ensures a * d <= b * d
    ensures a < b ==> a * d + d <= b * d
  {
    if a < b {
      MulAtLeast(b - a, d);
      assert (b - a) * d == b * d - a * d;
    }
  }

  /** t + d/2 < expiry <= t + 3d/2 */
  lemma ExpirationWindow(t: Time, d: int)
    requires d > 0
    ensures 2 * t + d < 2 * Expiration(t, d) <= 2 * t + 3 * d
  {
  }

  lemma ExpirationMonotone(t: Time, u: Time, d: int)
    requires d > 0 && t <= u
    ensures Expiration(t, d) <= Expiration(u, d)
  {
    var e, f := Expiration(t, d), Expiration(u, d);
    RoundIsMultiple(t + d, d);
    RoundIsMultiple(u + d, d);
    ExpirationIsNearest(t, d, f);
    ExpirationIsNearest(u, d, e);
  }

  /** The times that share an expiry e are exactly the half-open interval [e - 3d/2, e - d/2), of
      length d and written over doubled times because d may be odd. */
  lemma SharedExpiryInterval(t: Time, d: int, e: Time)
    requires d > 0 && e % d == 0
    ensures Expiration(t, d) == e <==> 2 * e - 3 * d <= 2 * t < 2 * e - d
  {
    ExpirationWindow(t, d);
    if 2 * e - 3 * d <= 2 * t < 2 * e - d {
      RoundIsMultiple(t + d, d);
      OnlyMultipleNear(Expiration(t, d), e, d);
    }
  }

  lemma OnlyMultipleNear(f: int, e: int, d: int)
    requires d > 0 && f % d == 0 && e % d == 0 && -d < f - e < d
    ensures f == e
  {
    var p, q := f / d, e / d;
    assert f == p * d && e == q * d;
    if p < q {
      ScaleMonotone(p, q, d);
    } else if q < p {
      ScaleMonotone(q, p, d);
    }
  }

  /** Whole-second durations give whole-second expiries, which survive the trip through a token. */
  lemma ExpirySurvivesToken(t: Time, d: int)
    requires WholeSeconds(d)
    ensures FromUnix(UnixSeconds(Expiration(t, d))) == Expiration(t, d)
  {
    var e := Expiration(t, d);
    RoundIsMultiple(t + d, d);
    var q, k := e / d, d / NANOS;
    assert e == q * d && d == k * NANOS;
    assert e == (q * k) * NANOS;
    DivModOf(q * k, 0, NANOS);
  }

  /** A stored token passes the time check up to and including the very instant of its expiry. */
  lemma PassesIff(stored: Time, clock: Time, d: int)
    requires WholeSeconds(d)
    ensures TimeCheckPasses(UnixSeconds(Expiration(stored, d)), clock) <==> clock <= Expiration(stored, d)
  {
    ExpirySurvivesToken(stored, d);
  }

  /** A token stored with the expiry of some request is not rejected as expired in any request that
      rounds to the same second, as long as the checking clock is at most d/2 past that request. */
  lemma MatchingExpiryNotExpired(stored: Time, request: Time, clock: Time, d: int)
    requires WholeSeconds(d)
    requires UnixSeconds(Expiration(stored, d)) == UnixSeconds(Expiration(request, d))
    requires 2 * clock <= 2 * request + d
    ensures TimeCheckPasses(UnixSeconds(Expiration(stored, d)), clock)
  {
    ExpirySurvivesToken(request, d);
    ExpirationWindow(request, d);
  }

  /** Past its expiry second a token is always rejected, however it was stored. */
  lemma ExpiredRejected(stored: Time, clock: Time, d: int)
    requires d > 0 && 2 * clock > 2 * stored + 3 * d
    ensures !TimeCheckPasses(UnixSeconds(Expiration(stored, d)), clock)
  {
    ExpirationWindow(stored, d);
    assert (Expiration(stored, d) / NANOS) * NANOS <= Expiration(stored, d);
  }
}
