/**
 * The arithmetic of the time utilities: the `(sec, nsec)` span the sleep
 * functions hand to `nanosleep`, and the millisecond difference of two
 * `timespec`s. `sb8` and the `UL` constants are 64 bits wide, as on LP64
 * targets, so a signed operand mixed with an `UL` constant is converted to
 * unsigned; that conversion is written out here.
 */
module TimeUtil {
  import opened CTypes

  const NSEC_PER_SEC: int := 1000000000
  const NSEC_PER_MSEC: int := 1000000
  const NSEC_PER_USEC: int := 1000
  const MSEC_PER_SEC: int := 1000
  const USEC_PER_SEC: int := 1000000

  datatype Timespec = Timespec(tvSec: int, tvNsec: int)

  /** A `timespec` in normal form: a nanosecond part of less than one second. */
  predicate Normal(ts: Timespec) {
    0 <= ts.tvNsec < NSEC_PER_SEC
  }

  /**
   * `sleep_msec`: the span handed to `nanosleep` for `ms` milliseconds, or
   * nothing for a non-positive count. The span is normal and lasts exactly
   * `ms` milliseconds.
   */
  function SleepMsecSpan(ms: int): (r: Option<Timespec>)
    ensures r.None? <==> ms <= 0
    ensures r.Some? ==> Normal(r.value) && r.value.tvSec >= 0
    ensures r.Some? ==> r.value.tvSec * NSEC_PER_SEC + r.value.tvNsec == ms * NSEC_PER_MSEC
  {
    if ms > 0 then
      var q, rem := ms / MSEC_PER_SEC, ms % MSEC_PER_SEC;
      assert ms == q * MSEC_PER_SEC + rem;
      Some(Timespec(q, rem * NSEC_PER_MSEC))
    else None
  }

  /**
   * `sleep_usec`: the span handed to `nanosleep` for `us` microseconds, or
   * nothing for a non-positive count. The span is normal and lasts exactly
   * `us` microseconds.
   */
  function SleepUsecSpan(us: int): (r: Option<Timespec>)
    ensures r.None? <==> us <= 0
    ensures r.Some? ==> Normal(r.value) && r.value.tvSec >= 0
    ensures r.Some? ==> r.value.tvSec * NSEC_PER_SEC + r.value.tvNsec == us * NSEC_PER_USEC
  {
    if us > 0 then
      var q, rem := us / USEC_PER_SEC, us % USEC_PER_SEC;
      assert us == q * USEC_PER_SEC + rem;
      Some(Timespec(q, rem * NSEC_PER_USEC))
    else None
  }

  /** A normal span of a given length is unique, so the two conversions are determined by their contracts. */
  lemma NormalSpanUnique(a: Timespec, b: Timespec)
    requires Normal(a) && Normal(b)
    requires a.tvSec * NSEC_PER_SEC + a.tvNsec == b.tvSec * NSEC_PER_SEC + b.tvNsec
    ensures a == b
  {
    var d := a.tvSec - b.tvSec;
    assert d * NSEC_PER_SEC == b.tvNsec - a.tvNsec;
    assert d == 0;
  }

  /** The same number of milliseconds and thousands of microseconds sleep for the same span. */
  lemma SleepUnitsAgree(ms: int)
    ensures SleepMsecSpan(ms) == SleepUsecSpan(ms * 1000)
  {
    if ms > 0 {
      NormalSpanUnique(SleepMsecSpan(ms).value, SleepUsecSpan(ms * 1000).value);
    }
  }

  /** `x` as a 64-bit unsigned value. */
  function U64(x: int): (u: int)
    ensures 0 <= u < UB8_LIMIT
  {
    x % UB8_LIMIT
  }

  /** A 64-bit unsigned value returned as `sb8`: the high half wraps to negative values. */
  function S64(u: int): (x: int)
    requires 0 <= u < UB8_LIMIT
    ensures -SB8_LIMIT <= x < SB8_LIMIT
  {
    if u < SB8_LIMIT then u else u - UB8_LIMIT
  }

  /** Converting a value of `sb8` range to unsigned and back gives it unchanged. */
  lemma SignedRoundTrip(x: int)
    requires -SB8_LIMIT <= x < SB8_LIMIT
    ensures S64(U64(x)) == x
  {
  }

  /** Reducing a factor modulo 2^64 first does not change a sum modulo 2^64. */
  lemma U64OfScaled(a: int, k: int, c: int)
    ensures U64(U64(a) * k + c) == U64(a * k + c)
  {
    var q := a / UB8_LIMIT;
    assert a == q * UB8_LIMIT + U64(a);
    assert a * k + c == U64(a) * k + c + (q * k) * UB8_LIMIT;
    ModShift(U64(a) * k + c, q * k);
  }

  /** Adding a multiple of 2^64 does not change a value modulo 2^64. */
  lemma ModShift(x: int, j: int)
    ensures (x + j * UB8_LIMIT) % UB8_LIMIT == x % UB8_LIMIT
  {
    var r := x % UB8_LIMIT;
    var q := x / UB8_LIMIT;
    assert x + j * UB8_LIMIT == (q + j) * UB8_LIMIT + r;
  }

  /**
   * One return expression of `difftime_msec`, `a * 1000UL + b / 1000000UL`:
   * both operands are converted to unsigned, divided and added modulo 2^64,
   * and the sum is returned as `sb8`.
   */
  function UnsignedMillis(a: int, b: int): (ms: int)
    ensures -SB8_LIMIT <= ms < SB8_LIMIT
    ensures 0 <= b < UB8_LIMIT && -SB8_LIMIT <= a * MSEC_PER_SEC + b / NSEC_PER_MSEC < SB8_LIMIT ==>
      ms == a * MSEC_PER_SEC + b / NSEC_PER_MSEC
  {
    var u := U64(U64(a) * MSEC_PER_SEC + U64(b) / NSEC_PER_MSEC);
    if 0 <= b < UB8_LIMIT && -SB8_LIMIT <= a * MSEC_PER_SEC + b / NSEC_PER_MSEC < SB8_LIMIT then
      UnsignedMillisExact(a, b);
      S64(u)
    else S64(u)
  }

  /** When the signed sum fits, the unsigned detour of `UnsignedMillis` gives it back. */
  lemma UnsignedMillisExact(a: int, b: int)
    requires 0 <= b < UB8_LIMIT && -SB8_LIMIT <= a * MSEC_PER_SEC + b / NSEC_PER_MSEC < SB8_LIMIT
    ensures S64(U64(U64(a) * MSEC_PER_SEC + U64(b) / NSEC_PER_MSEC)) == a * MSEC_PER_SEC + b / NSEC_PER_MSEC
  {
    assert U64(b) == b;
    U64OfScaled(a, MSEC_PER_SEC, b / NSEC_PER_MSEC);
    SignedRoundTrip(a * MSEC_PER_SEC + b / NSEC_PER_MSEC);
  }

  /**
   * The seconds and nanoseconds `difftime_msec` works on: the difference
   * of the two arguments, the one argument given, or the current time
   * `now` (read from the clock in the source) when both are NULL.
   */
  function DiffOperands(oldtms: Option<Timespec>, newtms: Option<Timespec>, now: Timespec): (Timespec)
  {
    if oldtms.None? && newtms.None? then now
    else if oldtms.Some? && newtms.Some? then
      Timespec(newtms.value.tvSec - oldtms.value.tvSec, newtms.value.tvNsec - oldtms.value.tvNsec)
    else if newtms.Some? then newtms.value
    else oldtms.value
  }

  /** The span `ts` in whole milliseconds, truncated toward zero as C's `/` truncates. */
  function TotalMillis(ts: Timespec): int {
    CDiv(ts.tvSec * NSEC_PER_SEC + ts.tvNsec, NSEC_PER_MSEC)
  }

  /**
   * `difftime_msec` as written: a positive second count borrows a second
   * for a negative nanosecond part, a negative one lends a second to a
   * positive part, and each return expression mixes the signed operands
   * with unsigned constants. For a positive second count and nanoseconds
   * within a second, the result is the elapsed time in milliseconds; with
   * no whole seconds it is so only for a non-negative nanosecond part.
   */
  function DiffTimeMsec(oldtms: Option<Timespec>, newtms: Option<Timespec>, now: Timespec): (ms: int)
    ensures -SB8_LIMIT <= ms < SB8_LIMIT
    ensures var d := DiffOperands(oldtms, newtms, now);
      d.tvSec > 0 && -NSEC_PER_SEC < d.tvNsec < NSEC_PER_SEC && d.tvSec * MSEC_PER_SEC < SB8_LIMIT - MSEC_PER_SEC ==>
        ms == TotalMillis(d)
    ensures var d := DiffOperands(oldtms, newtms, now);
      d.tvSec == 0 && 0 <= d.tvNsec < NSEC_PER_SEC ==> ms == TotalMillis(d)
  {
    var d := DiffOperands(oldtms, newtms, now);
    var sec, nsec := d.tvSec, d.tvNsec;
    if sec > 0 then
      if nsec >= 0 then UnsignedMillis(sec, nsec)
      else
        assert -NSEC_PER_SEC < nsec ==> (sec - 1) * NSEC_PER_SEC + (nsec + NSEC_PER_SEC) == sec * NSEC_PER_SEC + nsec;
        UnsignedMillis(sec - 1, nsec + NSEC_PER_SEC)
    else if sec < 0 then
      if nsec <= 0 then UnsignedMillis(sec, nsec)
      else UnsignedMillis(sec + 1, nsec - NSEC_PER_SEC)
    else UnsignedMillis(0, nsec)
  }

  /** With only one argument, the difference is measured from the zero `timespec`. */
  lemma SingleArgumentFromZero(ts: Timespec, now: Timespec)
    ensures DiffTimeMsec(None, Some(ts), now) == DiffTimeMsec(Some(Timespec(0, 0)), Some(ts), now)
    ensures DiffTimeMsec(Some(ts), None, now) == DiffTimeMsec(None, Some(ts), now)
  {
    assert DiffOperands(Some(Timespec(0, 0)), Some(ts), now) == ts;
  }

  /** Half a second backwards, with no whole second between the two times. */
  lemma NegativeHalfSecondAsWritten(now: Timespec)
    ensures DiffTimeMsec(Some(Timespec(5, 500000000)), Some(Timespec(5, 0)), now) == 18446744073209
    ensures TotalMillis(Timespec(0, -500000000)) == -500
  {
    assert DiffOperands(Some(Timespec(5, 500000000)), Some(Timespec(5, 0)), now) == Timespec(0, -500000000);
    assert U64(-500000000) == UB8_LIMIT - 500000000;
  }

  /** One and a half seconds backwards. */
  lemma NegativeSpanAsWritten(now: Timespec)
    ensures DiffTimeMsec(Some(Timespec(5, 500000000)), Some(Timespec(4, 0)), now) == 18446744072209
    ensures TotalMillis(Timespec(-1, -500000000)) == -1500
  {
    assert DiffOperands(Some(Timespec(5, 500000000)), Some(Timespec(4, 0)), now) == Timespec(-1, -500000000);
    assert U64(-1) * MSEC_PER_SEC == UB8_LIMIT * 1000 - 1000;
    assert U64(-500000000) / NSEC_PER_MSEC == 18446744073209;
  }

  /**
   * `difftime_msec` with the signed arithmetic its branches evidently
   * intend: the borrow and the lend are kept, and every quotient truncates
   * toward zero. For nanoseconds within a second it is the elapsed time in
   * milliseconds, whatever the sign of the seconds.
   */
  function DiffTimeMsecSigned(oldtms: Option<Timespec>, newtms: Option<Timespec>, now: Timespec): (ms: int)
    ensures var d := DiffOperands(oldtms, newtms, now);
      -NSEC_PER_SEC < d.tvNsec < NSEC_PER_SEC ==> ms == TotalMillis(d)
  {
    var d := DiffOperands(oldtms, newtms, now);
    var sec, nsec := d.tvSec, d.tvNsec;
    if sec > 0 then
      if nsec >= 0 then sec * MSEC_PER_SEC + CDiv(nsec, NSEC_PER_MSEC)
      else
        assert (sec - 1) * NSEC_PER_SEC + (nsec + NSEC_PER_SEC) == sec * NSEC_PER_SEC + nsec;
        (sec - 1) * MSEC_PER_SEC + CDiv(nsec + NSEC_PER_SEC, NSEC_PER_MSEC)
    else if sec < 0 then
      if nsec <= 0 then sec * MSEC_PER_SEC + CDiv(nsec, NSEC_PER_MSEC)
      else
        assert (sec + 1) * NSEC_PER_SEC + (nsec - NSEC_PER_SEC) == sec * NSEC_PER_SEC + nsec;
        (sec + 1) * MSEC_PER_SEC + CDiv(nsec - NSEC_PER_SEC, NSEC_PER_MSEC)
    else CDiv(nsec, NSEC_PER_MSEC)
  }

  /**
   * Two normal `timespec`s half a second apart, the later one given first:
   * the signed version reports -500 ms, and it agrees with the original
   * wherever the original is right.
   */
  lemma SignedDiffAgrees(oldtms: Timespec, newtms: Timespec, now: Timespec)
    requires Normal(oldtms) && Normal(newtms)
    requires 0 < newtms.tvSec - oldtms.tvSec < SB8_LIMIT / 1000 - 1
    ensures DiffTimeMsecSigned(Some(Timespec(5, 500000000)), Some(Timespec(5, 0)), now) == -500
    ensures DiffTimeMsecSigned(Some(oldtms), Some(newtms), now) == DiffTimeMsec(Some(oldtms), Some(newtms), now)
  {
    assert DiffOperands(Some(Timespec(5, 500000000)), Some(Timespec(5, 0)), now) == Timespec(0, -500000000);
  }
}
