/**
 * Two checks from the portable type header: the clamp applied to integer
 * configuration values, and the length clamp and terminator of the checked
 * `snprintf` wrapper. The formatting itself is not modelled: the wrapper's
 * length check receives `vsnprintf`'s raw return value.
 */
module UniTypes {
  import opened CTypes

  /**
   * `CHKCONFIG_INT_VALUE`: the new value of `var`. 0 selects the default,
   * -1 the maximum, and any other value is raised to `minval` or lowered to
   * `maxval` when it lies outside them (the lower bound is checked first).
   */
  function ChkConfigIntValue(defval: int, minval: int, maxval: int, v: int): (r: int)
    ensures v == 0 ==> r == defval
    ensures v == -1 ==> r == maxval
    ensures v != 0 && v != -1 && v < minval ==> r == minval
    ensures v != 0 && v != -1 && minval <= v && v > maxval ==> r == maxval
    ensures v != 0 && v != -1 && minval <= v <= maxval ==> r == v
  {
    if v == 0 then defval
    else if v == -1 then maxval
    else if v < minval then minval
    else if v > maxval then maxval
    else v
  }

  /** With `minval <= maxval`, an explicit value always ends up within the bounds. */
  lemma ChkConfigInRange(defval: int, minval: int, maxval: int, v: int)
    requires minval <= maxval && v != 0 && v != -1
    ensures minval <= ChkConfigIntValue(defval, minval, maxval, v) <= maxval
  {
  }

  /**
   * Checking a value twice gives what checking it once gives, when the
   * bounds are positive and the default lies within them.
   */
  lemma ChkConfigIdempotent(defval: int, minval: int, maxval: int, v: int)
    requires 0 < minval <= maxval && minval <= defval <= maxval
    ensures var once := ChkConfigIntValue(defval, minval, maxval, v);
      ChkConfigIntValue(defval, minval, maxval, once) == once
  {
  }

  /**
   * With a lower bound of 0 a negative value is raised to 0, which the
   * next check reads as "use the default": the macro is then not
   * idempotent.
   */
  lemma ChkConfigZeroBoundReselects()
    ensures ChkConfigIntValue(7, 0, 10, -5) == 0
    ensures ChkConfigIntValue(7, 0, 10, ChkConfigIntValue(7, 0, 10, -5)) == 7
  {
  }

  /**
   * The length `snprintf_chkd_V1` reports for `vsnprintf`'s raw return
   * value: the raw value when the output fitted, `bufsize - 1` when it was
   * truncated or failed. It is always an index within the buffer.
   */
  function CheckedLength(raw: int, bufsize: int): (len: int)
    requires bufsize >= 1
    ensures 0 <= len < bufsize
    ensures 0 <= raw < bufsize <==> len == raw
  {
    if raw < 0 || raw >= bufsize then bufsize - 1 else raw
  }

  /**
   * The length check of `snprintf_chkd_V1` after `vsnprintf` returned
   * `raw`: a truncated or failed output gets a NUL at `bufsize - 1`; an
   * output that fitted is left as `vsnprintf` wrote it.
   */
  method SnprintfChkdV1(outputbuf: array<char>, bufsize: int, raw: int) returns (len: int)
    requires 1 <= bufsize <= outputbuf.Length
    modifies outputbuf
    ensures len == CheckedLength(raw, bufsize)
    ensures 0 <= raw < bufsize ==> outputbuf[..] == old(outputbuf[..])
    ensures !(0 <= raw < bufsize) ==> outputbuf[..] == old(outputbuf[..])[bufsize - 1 := NUL]
  {
    len := raw;
    if len < 0 || len >= bufsize {
      len := bufsize - 1;
      outputbuf[len] := NUL;
    }
  }
}
