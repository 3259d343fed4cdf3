/** Wall-clock time as the key manager sees it.

    A Go `time.Time` is modelled as a whole number of nanoseconds since Go's
    zero time (January 1 of year 1, UTC), so the zero `time.Time` that an
    unset record field holds is the number 0. A Go `time.Duration` is a
    signed 64-bit count of nanoseconds, and `Time.Sub` saturates at the ends
    of that range instead of wrapping around. */
module Clock {

  type Time = int

  /** Go's zero `time.Time`, the value of a record field nobody set. */
  const Zero: Time := 0

  const Second: int := 1_000_000_000
  const Minute: int := 60 * Second

  /** The ends of the signed 64-bit range of `time.Duration`. */
  const MinDuration: int := -0x8000_0000_0000_0000
  const MaxDuration: int := 0x7fff_ffff_ffff_ffff

  /** `t.Sub(u)`: the elapsed time from `u` to `t`, clamped to the range of a
      `time.Duration`. */
  function Sub(t: Time, u: Time): (d: int)
    ensures MinDuration <= d <= MaxDuration
    ensures MinDuration <= t - u <= MaxDuration ==> d == t - u
    ensures t - u > MaxDuration ==> d == MaxDuration
    ensures t - u < MinDuration ==> d == MinDuration
  {
    if t - u > MaxDuration then MaxDuration
    else if t - u < MinDuration then MinDuration
    else t - u
  }

  /** Saturation never changes the outcome of comparing an elapsed time with
      a non-negative limit below the largest `time.Duration`: `t.Sub(u) > limit`
      holds exactly when the true elapsed time exceeds the limit. */
  lemma SubExceedsIff(t: Time, u: Time, limit: int)
    requires 0 <= limit < MaxDuration
    ensures Sub(t, u) > limit <==> t - u > limit
  {
  }
}
