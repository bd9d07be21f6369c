/**
 * Validation, copying, replacement and counting in the `cstr_` family:
 * `cstr_isnumeric`, `cstr_isdigit`, `cstr_safecopy`, `cstr_replace_new`
 * and the counting mode of `cstr_slpit_chr`.
 */
module CStrText {
  import opened CTypes
  import opened CStrTrim

  // ---------------------------------------------------------------------
  // cstr_isnumeric, cstr_isdigit
  // ---------------------------------------------------------------------

  /** `cstr_length(str, len)` of a non-NULL string: a negative length means the whole string. */
  function LengthBounded(s: seq<char>, len: int): (t: seq<char>)
    ensures |t| <= |s| && t == s[..|t|]
    ensures len >= 0 ==> |t| == if len < |s| then len else |s|
    ensures len < 0 ==> t == s
  {
    if len < 0 || len >= |s| then s else s[..len]
  }

  /** How many dots `b` holds. */
  function Dots(b: seq<char>): nat {
    if b == [] then 0 else Dots(b[..|b| - 1]) + (if b[|b| - 1] == '.' then 1 else 0)
  }

  /** A sign, if there is one, is the first character. */
  function SignLength(t: seq<char>): nat {
    if |t| > 0 && (t[0] == '+' || t[0] == '-') then 1 else 0
  }

  /** Every character of `b` is a decimal digit or a dot. */
  predicate DigitsAndDots(b: seq<char>) {
    forall i :: 0 <= i < |b| ==> IsDigit(b[i]) || b[i] == '.'
  }

  /**
   * What `cstr_isnumeric` accepts once the string is trimmed and bounded:
   * one to forty characters, an optional sign, then digits with at most
   * one dot among them.
   */
  predicate NumericText(t: seq<char>) {
    && 1 <= |t| <= 40
    && DigitsAndDots(t[SignLength(t)..])
    && Dots(t[SignLength(t)..]) <= 1
  }

  /** The verdict of `cstr_isnumeric` on the string `s` with length argument `len`. */
  predicate IsNumericText(s: seq<char>, len: int) {
    NumericText(LengthBounded(TrimWhitespace(s), len))
  }

  /**
   * `cstr_isnumeric` on the string at `buf[p..]`: trims it in place, bounds
   * it by `len` and checks the form character by character. A NULL string
   * trims to NULL, whose length is 0, so it is not numeric.
   */
  method IsNumeric(buf: array?<char>, p: nat, len: int) returns (ok: bool)
    requires buf != null ==> p <= buf.Length && NUL in buf[p..]
    modifies buf
    ensures buf == null ==> !ok
    ensures buf != null ==> ok == IsNumericText(CString(old(buf[p..])), len)
    ensures buf != null ==> buf[..p] == old(buf[..p])
    ensures buf != null ==> buf[..] == LRtrimmedBuffer(old(buf[..]), p)
  {
    if buf == null {
      return false;
    }
    ghost var b0 := buf[..];
    var start := LRtrimWhitespace(buf, p);
    KeepsBelow(b0, buf[..], p, start);
    ok := CheckTrimmed(buf, start, len);
  }

  /** A buffer that keeps its first `start` characters keeps the first `p` of them. */
  lemma KeepsBelow(b0: seq<char>, b1: seq<char>, p: nat, start: nat)
    requires p <= start <= |b0| == |b1| && b1[..start] == b0[..start]
    ensures b1[..p] == b0[..p]
  {
    assert b1[..p] == b1[..start][..p];
    assert b0[..p] == b0[..start][..p];
  }

  /** The checks of `cstr_isnumeric` on the trimmed string at `buf[start..]`, bounded by `len`. */
  method CheckTrimmed(buf: array<char>, start: nat, len: int) returns (ok: bool)
    requires start <= buf.Length && NUL in buf[start..]
    ensures ok == NumericText(LengthBounded(CString(buf[start..]), len))
  {
    var b := buf[start..];
    var n := StrLen(b);
    if len >= 0 && len < n {
      n := len;
    }
    BoundedCString(b, len, n);
    ok := CheckNumeric(b[..n]);
  }

  /** The first `n` characters of `b` are its C string bounded by `len`, `n` being that bound. */
  lemma BoundedCString(b: seq<char>, len: int, n: nat)
    requires NUL in b && n == (if 0 <= len < StrLen(b) then len else StrLen(b))
    ensures b[..n] == LengthBounded(CString(b), len)
  {
    assert CString(b)[..n] == b[..n];
  }

  /** The length and character checks of `cstr_isnumeric` on the trimmed, bounded string `t`. */
  method CheckNumeric(t: seq<char>) returns (ok: bool)
    ensures ok == NumericText(t)
  {
    var n := |t|;
    if n < 1 || n > 40 {
      return false;
    }
    var sign := 0;
    if t[0] == '+' || t[0] == '-' {
      sign := 1;
    }
    assert sign == SignLength(t);
    var body := t[sign..];
    var i := 0;
    var dots := 0;
    while i < |body|
      invariant 0 <= i <= |body|
      invariant DigitsAndDots(body[..i])
      invariant dots == Dots(body[..i]) <= 1
    {
      assert body[..i + 1][..i] == body[..i];
      if !IsDigit(body[i]) {
        if body[i] == '.' {
          dots := dots + 1;
          if dots > 1 {
            DotsOfPrefix(body, i + 1);
            return false;
          }
        } else {
          return false;
        }
      }
      i := i + 1;
    }
    assert body[..i] == body;
    ok := true;
  }

  /** A prefix holds no more dots than the whole. */
  lemma {:induction false} DotsOfPrefix(b: seq<char>, k: nat)
    requires k <= |b|
    ensures Dots(b[..k]) <= Dots(b)
    decreases |b|
  {
    if k < |b| {
      DotsOfPrefix(b[..|b| - 1], k);
      assert b[..|b| - 1][..k] == b[..k];
    } else {
      assert b[..k] == b;
    }
  }

  /** Dots of a concatenation add up. */
  lemma {:induction false} DotsAppend(a: seq<char>, b: seq<char>)
    ensures Dots(a + b) == Dots(a) + Dots(b)
    decreases |b|
  {
    if b == [] {
      assert a + b == a;
    } else {
      DotsAppend(a, b[..|b| - 1]);
      assert (a + b)[..|a + b| - 1] == a + b[..|b| - 1];
    }
  }

  /** A string without a dot has no dots. */
  lemma {:induction false} NoDots(b: seq<char>)
    requires '.' !in b
    ensures Dots(b) == 0
    decreases |b|
  {
    if b != [] {
      assert forall c :: c in b[..|b| - 1] ==> c in b;
      NoDots(b[..|b| - 1]);
    }
  }

  /** A string with no blank at either end is checked as it stands. */
  lemma UntrimmedCheck(s: seq<char>)
    requires s != [] && !IsSpace(s[0]) && !IsSpace(s[|s| - 1])
    ensures IsNumericText(s, -1) == NumericText(s)
  {
    TrimOf(s, 0, |s|);
    assert s[0..][..|s|] == s;
  }

  /**
   * A string of at most forty characters made of an optional sign and a
   * non-empty body of digits and dots is numeric exactly when the body
   * holds at most one dot.
   */
  lemma NumericForm(sign: seq<char>, body: seq<char>)
    requires sign == "" || sign == "+" || sign == "-"
    requires body != [] && DigitsAndDots(body) && |sign| + |body| <= 40
    ensures IsNumericText(sign + body, -1) <==> Dots(body) <= 1
  {
    var s := sign + body;
    SignedBody(sign, body);
    assert NumericText(s) <==> Dots(body) <= 1;
    UntrimmedCheck(s);
  }

  /** The shape of a sign followed by a body of digits and dots. */
  lemma SignedBody(sign: seq<char>, body: seq<char>)
    requires sign == "" || sign == "+" || sign == "-"
    requires body != [] && DigitsAndDots(body)
    ensures var s := sign + body;
      && |s| == |sign| + |body| && !IsSpace(s[0]) && !IsSpace(s[|s| - 1])
      && SignLength(s) == |sign| && s[|sign|..] == body
  {
    var s := sign + body;
    assert s[|s| - 1] == body[|body| - 1];
    assert s[0] == if sign == "" then body[0] else sign[0];
  }

  /** An example documented with `cstr_isnumeric`: plain digits pass. */
  lemma IsNumericDigits()
    ensures IsNumericText("8897391", -1)
  {
    var s := "8897391";
    NoDots(s);
    NumericForm("", s);
    assert "" + s == s;
  }

  /** An example documented with `cstr_isnumeric`: a sign and one dot pass. */
  lemma IsNumericSignedDecimal()
    ensures IsNumericText("+123456.123", -1)
  {
    var s := "+123456.123";
    var sign, body := s[..1], s[1..];
    assert sign == "+";
    assert Dots(body) == 1 by {
      assert body == "123456." + "123";
      NoDots("123");
      DotsAppend("123456.", "123");
      assert "123456."[..6] == "123456";
      NoDots("123456");
    }
    NumericForm(sign, body);
    assert sign + body == s;
  }

  /** An example documented with `cstr_isnumeric`: the empty string fails. */
  lemma IsNumericEmpty()
    ensures !IsNumericText("", -1)
  {
    assert TrimWhitespace("") == "";
  }

  /** An example documented with `cstr_isnumeric`: two dots fail. */
  lemma IsNumericTwoDots()
    ensures !IsNumericText("12.56.89", -1)
  {
    var s := "12.56.89";
    assert Dots(s) == 2 by {
      assert s == "12." + "56." + "89";
      assert "12."[..2] == "12" && "56."[..2] == "56";
      NoDots("12");
      NoDots("56");
      NoDots("89");
      DotsAppend("12." + "56.", "89");
      DotsAppend("12.", "56.");
    }
    NumericForm("", s);
    assert "" + s == s;
  }

  /** An example documented with `cstr_isnumeric`: a blank after the sign fails. */
  lemma IsNumericSpaceAfterSign()
    ensures !IsNumericText("+ 1234.556", -1)
  {
    var s := "+ 1234.556";
    UntrimmedCheck(s);
    assert SignLength(s) == 1;
    assert !IsDigit(s[1]) && s[1] != '.';
  }

  /** Blanks around a string with no blank at either end are what trimming removes. */
  lemma TrimBlankPadding(pre: seq<char>, t: seq<char>, post: seq<char>)
    requires forall i :: 0 <= i < |pre| ==> IsSpace(pre[i])
    requires forall i :: 0 <= i < |post| ==> IsSpace(post[i])
    requires t != [] && !IsSpace(t[0]) && !IsSpace(t[|t| - 1])
    ensures TrimWhitespace(pre + t + post) == t
  {
    var s := pre + t + post;
    TrimOf(s, |pre|, |t|);
    assert s[|pre|..][..|t|] == t;
  }

  /** An example documented with `cstr_isnumeric`: leading blanks are trimmed away. */
  lemma IsNumericLeadingBlanks()
    ensures IsNumericText("   " + "123.456", -1)
  {
    var t := "123.456";
    assert NumericText(t) by {
      assert SignLength(t) == 0 && t[0..] == t;
      assert Dots(t) == 1 by {
        assert t == t[..4] + t[4..];
        NoDots(t[4..]);
        DotsAppend(t[..4], t[4..]);
        assert t[..4][..3] == t[..3];
        NoDots(t[..3]);
      }
    }
    TrimBlankPadding("   ", t, "");
    assert "   " + t + "" == "   " + t;
  }

  /** An example documented with `cstr_isnumeric`: a sign with trailing blanks passes. */
  lemma IsNumericTrailingBlanks()
    ensures IsNumericText("-100" + "  ", -1)
  {
    var t := "-100";
    assert NumericText(t) by {
      assert SignLength(t) == 1;
      NoDots(t[1..]);
    }
    TrimBlankPadding("", t, "  ");
    assert "" + t + "  " == t + "  ";
  }

  /** An example documented with `cstr_isnumeric`: blanks alone trim to nothing. */
  lemma IsNumericOnlyBlanks()
    ensures !IsNumericText("   ", -1)
  {
    TrimOf("   ", 3, 0);
  }

  /** An example documented with `cstr_isnumeric`: an inner blank fails. */
  lemma IsNumericInnerBlank()
    ensures !IsNumericText("189 0931", -1)
  {
    var s := "189 0931";
    UntrimmedCheck(s);
    assert SignLength(s) == 0;
    assert !IsDigit(s[3]) && s[3] != '.';
  }

  /** A sign or a dot on its own passes the check, as written. */
  lemma LoneSignOrDotAccepted()
    ensures IsNumericText("+", -1) && IsNumericText(".", -1)
  {
    UntrimmedCheck("+");
    assert SignLength("+") == 1 && "+"[1..] == "";
    UntrimmedCheck(".");
    assert SignLength(".") == 0 && "."[0..] == ".";
    assert "."[..0] == "";
  }

  /** `cstr_isdigit`: whether the first `len` characters are all decimal digits (true for `len <= 0`). */
  method IsDigits(str: seq<char>, len: int) returns (r: bool)
    requires len <= |str|
    ensures r <==> forall i :: 0 <= i < len ==> IsDigit(str[i])
  {
    var k := len;
    while k > 0
      invariant k <= len && (k >= 0 || k == len)
      invariant forall i :: k <= i < len && 0 <= i ==> IsDigit(str[i])
    {
      k := k - 1;
      if !IsDigit(str[k]) {
        return false;
      }
    }
    r := true;
  }

  // ---------------------------------------------------------------------
  // cstr_safecopy
  // ---------------------------------------------------------------------

  /** `d` with `s` written over it from index `at`. */
  function Splice(d: seq<char>, at: nat, s: seq<char>): (r: seq<char>)
    requires at + |s| <= |d|
    ensures |r| == |d| && r[..at] == d[..at] && r[at..at + |s|] == s && r[at + |s|..] == d[at + |s|..]
  {
    d[..at] + s + d[at + |s|..]
  }

  /**
   * The result and the new buffer contents of `cstr_safecopy` on a buffer
   * `d` of size `size`: when the copy and its terminator fit, both are
   * written and 1 is returned; otherwise, when `off` lies inside the
   * buffer, what fits from `off` on is copied and a buffer of more than
   * three bytes gets "..." before its last byte; in every case the last
   * byte becomes NUL and 0 is returned.
   */
  function SafeCopied(d: seq<char>, size: nat, off: nat, src: seq<char>, srclen: nat): (r: (int, seq<char>))
    requires 1 <= size <= |d|
    requires off < size ==> (if off + srclen < size then srclen else size - off) <= |src|
    ensures |r.1| == |d| && r.1[size..] == d[size..]
    ensures r.0 == 1 <==> off + srclen < size
    ensures r.0 == 1 ==> r.1[..off] == d[..off] && r.1[off..off + srclen] == src[..srclen] && r.1[off + srclen] == NUL
    ensures r.0 == 1 ==> r.1[off + srclen + 1..] == d[off + srclen + 1..]
    ensures r.0 == 0 ==> r.1[size - 1] == NUL
    ensures r.0 == 0 && off < size && size > 3 ==> r.1[size - 4..size - 1] == "..."
    ensures r.0 == 0 && off >= size ==> r.1 == d[size - 1 := NUL]
    ensures r.0 == 0 ==> forall i :: 0 <= i < off && i < size - 4 ==> r.1[i] == d[i]
    ensures r.0 == 0 && off + 4 < size ==> r.1[off..size - 4] == src[..size - 4 - off]
  {
    if off + srclen < size then
      (1, Splice(d, off, src[..srclen] + [NUL]))
    else if off < size then
      (0, Truncated(d, size, off, src))
    else
      (0, d[size - 1 := NUL])
  }

  /**
   * The partial copy of `cstr_safecopy` with `off` inside the buffer: what
   * fits from `off` on, then "..." over the three bytes before the last
   * when the buffer has more than three, and a NUL last.
   */
  function Truncated(d: seq<char>, size: nat, off: nat, src: seq<char>): (r: seq<char>)
    requires off < size <= |d| && size - off <= |src|
    ensures |r| == |d| && r[size..] == d[size..] && r[size - 1] == NUL
    ensures size > 3 ==> r[size - 4..size - 1] == "..."
    ensures forall i :: 0 <= i < off && i < size - 4 ==> r[i] == d[i]
    ensures off + 4 < size ==> r[off..size - 4] == src[..size - 4 - off]
  {
    var d1 := Splice(d, off, src[..size - off]);
    var d2 := if size > 3 then Splice(d1, size - 4, "...") else d1;
    assert off + 4 < size ==> d2[off..size - 4] == d1[off..size - 4] == src[..size - 4 - off];
    d2[size - 1 := NUL]
  }

  /** After a complete copy, the string at `off` reads back as the source. */
  lemma SafeCopyReadsBack(d: seq<char>, size: nat, off: nat, src: CStr, srclen: nat)
    requires 1 <= size <= |d| && off + srclen < size && srclen <= |src|
    ensures var r := SafeCopied(d, size, off, src, srclen);
      NUL in r.1[off..] && CString(r.1[off..]) == src[..srclen]
  {
    var r := SafeCopied(d, size, off, src, srclen).1;
    assert r[off..][srclen] == NUL;
    assert r[off..][..srclen] == src[..srclen];
    assert NUL !in src[..srclen] by {
      assert forall c :: c in src[..srclen] ==> c in src;
    }
  }

  /** `memcpy(dst + at, src, n)`. */
  method CopyInto(dst: array<char>, at: nat, src: seq<char>, n: nat)
    requires n <= |src| && at + n <= dst.Length
    modifies dst
    ensures dst[..] == Splice(old(dst[..]), at, src[..n])
  {
    var k := 0;
    while k < n
      invariant 0 <= k <= n
      invariant dst[..] == Splice(old(dst[..]), at, src[..k])
    {
      dst[at + k] := src[k];
      k := k + 1;
    }
  }

  /** `cstr_safecopy` into `dst`, whose first `size` bytes are the buffer. */
  method SafeCopy(dst: array<char>, size: nat, off: nat, src: seq<char>, srclen: nat) returns (r: int)
    requires 1 <= size <= dst.Length
    requires off < size ==> (if off + srclen < size then srclen else size - off) <= |src|
    modifies dst
    ensures (r, dst[..]) == SafeCopied(old(dst[..]), size, off, src, srclen)
  {
    ghost var d := dst[..];
    if off + srclen < size {
      CopyInto(dst, off, src, srclen);
      dst[off + srclen] := NUL;
      assert dst[..] == Splice(d, off, src[..srclen] + [NUL]);
      return 1;
    }
    if off < size {
      CopyTruncated(dst, size, off, src);
    } else {
      dst[size - 1] := NUL;
    }
    r := 0;
  }

  /** The partial copy of `cstr_safecopy` into `dst` when `off` is inside the buffer. */
  method CopyTruncated(dst: array<char>, size: nat, off: nat, src: seq<char>)
    requires off < size <= dst.Length && size - off <= |src|
    modifies dst
    ensures dst[..] == Truncated(old(dst[..]), size, off, src)
  {
    CopyInto(dst, off, src, size - off);
    ghost var d1 := dst[..];
    if size > 3 {
      CopyInto(dst, size - 4, "...", 3);
      assert "..."[..3] == "...";
    }
    assert dst[..] == if size > 3 then Splice(d1, size - 4, "...") else d1;
    dst[size - 1] := NUL;
  }

  // ---------------------------------------------------------------------
  // cstr_replace_new
  // ---------------------------------------------------------------------

  /** Whether `pat` occurs in `s` at index `i`. */
  predicate MatchAt(s: seq<char>, pat: seq<char>, i: nat) {
    i + |pat| <= |s| && s[i..i + |pat|] == pat
  }

  /** `strstr` from index `from`: the first occurrence of `pat` at or after `from`. */
  function FindFrom(s: seq<char>, pat: seq<char>, from: nat): (r: Option<nat>)
    requires from <= |s|
    ensures r.Some? ==> from <= r.value && r.value + |pat| <= |s|
    decreases |s| - from
  {
    if from + |pat| > |s| then None
    else if s[from..from + |pat|] == pat then Some(from)
    else if from == |s| then None
    else FindFrom(s, pat, from + 1)
  }

  /**
   * `strstr` finds the first occurrence: the pattern is at the index found,
   * not between `from` and it, and nowhere from `from` on when nothing is found.
   */
  lemma {:induction false} FindFromIsFirst(s: seq<char>, pat: seq<char>, from: nat)
    requires from <= |s|
    ensures FindFrom(s, pat, from).Some? ==> MatchAt(s, pat, FindFrom(s, pat, from).value)
    ensures FindFrom(s, pat, from).Some? ==> forall j :: from <= j < FindFrom(s, pat, from).value ==> !MatchAt(s, pat, j)
    ensures FindFrom(s, pat, from).None? ==> forall j :: from <= j ==> !MatchAt(s, pat, j)
    decreases |s| - from
  {
    if from + |pat| <= |s| && s[from..from + |pat|] != pat && from < |s| {
      FindFromIsFirst(s, pat, from + 1);
    }
  }

  /** The number of non-overlapping occurrences of `pat` from `from` on, found left to right. */
  function Occurrences(s: seq<char>, pat: seq<char>, from: nat): nat
    requires |pat| > 0 && from <= |s|
    decreases |s| - from
  {
    match FindFrom(s, pat, from)
    case None => 0
    case Some(i) => 1 + Occurrences(s, pat, i + |pat|)
  }

  /** `s` from `from` on with every such occurrence of `pat` replaced by `rep`. */
  function ReplaceAll(s: seq<char>, pat: seq<char>, rep: seq<char>, from: nat): seq<char>
    requires |pat| > 0 && from <= |s|
    decreases |s| - from
  {
    match FindFrom(s, pat, from)
    case None => s[from..]
    case Some(i) => s[from..i] + rep + ReplaceAll(s, pat, rep, i + |pat|)
  }

  /** Each replacement changes the length by `|rep| - |pat|`. */
  lemma {:induction false} ReplaceAllLength(s: seq<char>, pat: seq<char>, rep: seq<char>, from: nat)
    requires |pat| > 0 && from <= |s|
    ensures |ReplaceAll(s, pat, rep, from)| == |s| - from + Occurrences(s, pat, from) * (|rep| - |pat|)
    decreases |s| - from
  {
    match FindFrom(s, pat, from)
    case None =>
    case Some(i) =>
      var rest := ReplaceAll(s, pat, rep, i + |pat|);
      var k := Occurrences(s, pat, i + |pat|);
      ReplaceAllLength(s, pat, rep, i + |pat|);
      assert |rest| == |s| - (i + |pat|) + k * (|rep| - |pat|);
      assert |s[from..i] + rep + rest| == (i - from) + |rep| + |rest|;
      Distribute(k, |rep| - |pat|);
  }

  lemma Distribute(k: int, d: int)
    ensures (1 + k) * d == d + k * d
  {
  }

  /** Replacing a pattern by itself changes nothing. */
  lemma {:induction false} ReplaceBySelf(s: seq<char>, pat: seq<char>, from: nat)
    requires |pat| > 0 && from <= |s|
    ensures ReplaceAll(s, pat, pat, from) == s[from..]
    decreases |s| - from
  {
    match FindFrom(s, pat, from)
    case None =>
    case Some(i) =>
      FindFromIsFirst(s, pat, from);
      ReplaceBySelf(s, pat, i + |pat|);
      assert s[from..] == s[from..i] + s[i..i + |pat|] + s[i + |pat|..];
  }

  /** Without an occurrence, there is nothing to replace. */
  lemma NoOccurrenceNoChange(s: seq<char>, pat: seq<char>, rep: seq<char>)
    requires |pat| > 0
    ensures Occurrences(s, pat, 0) == 0 <==> FindFrom(s, pat, 0).None?
    ensures Occurrences(s, pat, 0) == 0 ==> ReplaceAll(s, pat, rep, 0) == s
  {
  }

  /** `strstr` finds the dashes of "a-b-c" at 1 and 3, and nothing after. */
  lemma DashesFound()
    ensures FindFrom("a-b-c", "-", 0) == Some(1)
    ensures FindFrom("a-b-c", "-", 2) == Some(3)
    ensures FindFrom("a-b-c", "-", 4) == None
  {
    var s := "a-b-c";
    assert s[0..1] == "a" && s[1..2] == "-" && s[2..3] == "b" && s[3..4] == "-" && s[4..5] == "c";
  }

  /** Replacing each dash of "a-b-c" with two dashes. */
  lemma ReplaceExample()
    ensures Occurrences("a-b-c", "-", 0) == 2
    ensures ReplaceAll("a-b-c", "-", "--", 0) == "a--b--c"
  {
    var s := "a-b-c";
    DashesFound();
    ReplaceAllUnfold(s, "-", "--", 0);
    ReplaceAllUnfold(s, "-", "--", 2);
    ReplaceAllUnfold(s, "-", "--", 4);
    assert s[0..1] == "a" && s[2..3] == "b" && s[4..] == "c";
  }

  /**
   * `cstr_replace_new`: counts the occurrences of the non-empty pattern,
   * then, when there is at least one, builds the replaced string and
   * returns its length `|original| + count * (|replacement| - |pattern|)`;
   * with no occurrence it returns 0 and no result.
   */
  method ReplaceNew(original: seq<char>, pattern: seq<char>, replacement: seq<char>)
    returns (len: int, result: Option<seq<char>>)
    requires |pattern| > 0
    ensures result.None? <==> Occurrences(original, pattern, 0) == 0
    ensures result.None? ==> len == 0
    ensures result.Some? ==> result.value == ReplaceAll(original, pattern, replacement, 0)
    ensures result.Some? ==> len == |result.value|
  {
    var cnt := CountOccurrences(original, pattern);
    if cnt == 0 {
      return 0, None;
    }
    len := |original| + cnt * (|replacement| - |pattern|);
    var out := BuildReplaced(original, pattern, replacement);
    ReplaceAllLength(original, pattern, replacement, 0);
    result := Some(out);
  }

  /** The first loop of `cstr_replace_new`: counts the occurrences `strstr` finds. */
  method CountOccurrences(original: seq<char>, pattern: seq<char>) returns (cnt: nat)
    requires |pattern| > 0
    ensures cnt == Occurrences(original, pattern, 0)
  {
    cnt := 0;
    var pos := 0;
    var loc := FindFrom(original, pattern, pos);
    while loc.Some?
      invariant pos <= |original|
      invariant loc == FindFrom(original, pattern, pos)
      invariant cnt + Occurrences(original, pattern, pos) == Occurrences(original, pattern, 0)
      decreases |original| - pos
    {
      cnt := cnt + 1;
      pos := loc.value + |pattern|;
      loc := FindFrom(original, pattern, pos);
    }
  }

  /** The second loop of `cstr_replace_new`: copies the text between occurrences and the replacement for each. */
  method BuildReplaced(original: seq<char>, pattern: seq<char>, replacement: seq<char>) returns (out: seq<char>)
    requires |pattern| > 0
    ensures out == ReplaceAll(original, pattern, replacement, 0)
  {
    out := [];
    var pos := 0;
    var loc := FindFrom(original, pattern, pos);
    while loc.Some?
      invariant pos <= |original|
      invariant loc == FindFrom(original, pattern, pos)
      invariant Built(original, pattern, replacement, pos, out)
      decreases |original| - pos
    {
      out, pos := ReplaceOne(original, pattern, replacement, pos, out, loc.value);
      loc := FindFrom(original, pattern, pos);
    }
    BuildDone(original, pattern, replacement, pos, out);
    out := out + original[pos..];
  }

  /** One pass of the second loop: the text before the occurrence at `i`, then the replacement. */
  method ReplaceOne(s: seq<char>, pat: seq<char>, rep: seq<char>, pos: nat, out: seq<char>, i: nat)
    returns (next: seq<char>, after: nat)
    requires |pat| > 0 && pos <= |s| && FindFrom(s, pat, pos) == Some(i)
    requires Built(s, pat, rep, pos, out)
    ensures pos < after <= |s| && next == out + s[pos..i] + rep
    ensures Built(s, pat, rep, after, next)
  {
    next := out + s[pos..i] + rep;
    BuildStep(s, pat, rep, pos, out, next);
    after := i + |pat|;
  }

  ghost predicate Built(s: seq<char>, pat: seq<char>, rep: seq<char>, pos: nat, out: seq<char>)
    requires |pat| > 0 && pos <= |s|
  {
    Joined(out, ReplaceAll(s, pat, rep, pos), ReplaceAll(s, pat, rep, 0))
  }

  /** `out` followed by `rest` is `total`. */
  predicate Joined(out: seq<char>, rest: seq<char>, total: seq<char>) {
    out + rest == total
  }

  lemma BuildStep(s: seq<char>, pat: seq<char>, rep: seq<char>, pos: nat, out: seq<char>, next: seq<char>)
    requires |pat| > 0 && pos <= |s| && FindFrom(s, pat, pos).Some?
    requires Built(s, pat, rep, pos, out)
    requires var i := FindFrom(s, pat, pos).value; next == out + s[pos..i] + rep
    ensures Built(s, pat, rep, FindFrom(s, pat, pos).value + |pat|, next)
  {
    var i := FindFrom(s, pat, pos).value;
    ReplaceAllSplits(s, pat, rep, pos);
    Regroup(out, ReplaceAll(s, pat, rep, pos), s[pos..i], rep, ReplaceAll(s, pat, rep, i + |pat|), ReplaceAll(s, pat, rep, 0));
  }

  /** `mid` is `a`, then `b`, then `rest`. */
  predicate Splits(mid: seq<char>, a: seq<char>, b: seq<char>, rest: seq<char>) {
    mid == a + b + rest
  }

  /** One replacement step of `ReplaceAll`, with the concatenation kept behind `Splits`. */
  lemma ReplaceAllSplits(s: seq<char>, pat: seq<char>, rep: seq<char>, from: nat)
    requires |pat| > 0 && from <= |s| && FindFrom(s, pat, from).Some?
    ensures var i := FindFrom(s, pat, from).value;
      i + |pat| <= |s| && Splits(ReplaceAll(s, pat, rep, from), s[from..i], rep, ReplaceAll(s, pat, rep, i + |pat|))
  {
    ReplaceAllUnfold(s, pat, rep, from);
  }

  lemma Regroup(out: seq<char>, mid: seq<char>, a: seq<char>, b: seq<char>, rest: seq<char>, total: seq<char>)
    requires Splits(mid, a, b, rest)
    requires Joined(out, mid, total)
    ensures Joined(out + a + b, rest, total)
  {
    assert out + (a + b + rest) == (out + a + b) + rest;
  }

  lemma BuildDone(s: seq<char>, pat: seq<char>, rep: seq<char>, pos: nat, out: seq<char>)
    requires |pat| > 0 && pos <= |s| && FindFrom(s, pat, pos).None?
    requires Built(s, pat, rep, pos, out)
    ensures out + s[pos..] == ReplaceAll(s, pat, rep, 0)
  {
    ReplaceAllUnfold(s, pat, rep, pos);
  }

  lemma ReplaceAllUnfold(s: seq<char>, pat: seq<char>, rep: seq<char>, from: nat)
    requires |pat| > 0 && from <= |s|
    ensures FindFrom(s, pat, from).None? ==> ReplaceAll(s, pat, rep, from) == s[from..]
    ensures FindFrom(s, pat, from).Some? ==>
      var i := FindFrom(s, pat, from).value;
      ReplaceAll(s, pat, rep, from) == s[from..i] + rep + ReplaceAll(s, pat, rep, i + |pat|)
  {
  }

  // ---------------------------------------------------------------------
  // cstr_slpit_chr, counting mode
  // ---------------------------------------------------------------------

  /** How many times `c` occurs in `s`. */
  function CharCount(s: seq<char>, c: char): nat {
    if s == [] then 0 else CharCount(s[..|s| - 1], c) + (if s[|s| - 1] == c then 1 else 0)
  }

  /** The fields of `s` between occurrences of `delim`, in order. */
  function Fields(s: seq<char>, delim: char): (f: seq<seq<char>>)
    ensures |f| >= 1
  {
    if s == [] then [[]]
    else
      var f := Fields(s[..|s| - 1], delim);
      if s[|s| - 1] == delim then f + [[]]
      else f[..|f| - 1] + [f[|f| - 1] + [s[|s| - 1]]]
  }

  /** A string has one field more than it has delimiters. */
  lemma {:induction false} FieldsCount(s: seq<char>, delim: char)
    ensures |Fields(s, delim)| == 1 + CharCount(s, delim)
  {
    if s != [] {
      FieldsCount(s[..|s| - 1], delim);
    }
  }

  /** `s` with its length cut to `len`, none left when `len` is negative. */
  function Clip(s: seq<char>, len: int): (t: seq<char>)
    ensures |t| <= |s| && t == s[..|t|]
    ensures len <= 0 ==> t == []
  {
    if len <= 0 then [] else if len < |s| then s[..len] else s
  }

  /** Characters between `i` and `j` that are not `c` leave the count unchanged. */
  lemma {:induction false} CharCountSkip(s: seq<char>, c: char, i: nat, j: nat)
    requires i <= j <= |s|
    requires forall k :: i <= k < j ==> s[k] != c
    ensures CharCount(s[..j], c) == CharCount(s[..i], c)
    decreases j - i
  {
    if i < j {
      CharCountSkip(s, c, i, j - 1);
      assert s[..j][..j - 1] == s[..j - 1];
    }
  }

  /**
   * The counting mode of `cstr_slpit_chr` (no output array): one more than
   * the number of delimiters `strchr` finds before index `len`. A NULL
   * string counts one field.
   */
  method CountFields(str: Option<CStr>, len: int, delim: char) returns (n: int)
    requires delim != NUL
    ensures str.None? ==> n == 1
    ensures str.Some? ==> n == 1 + CharCount(Clip(str.value, len), delim)
    ensures str.Some? ==> n == |Fields(Clip(str.value, len), delim)|
  {
    n := 1;
    if str.None? {
      return;
    }
    var s := str.value;
    var pos := 0;
    var loc := FindFrom(s, [delim], pos);
    while loc.Some? && loc.value < len
      invariant pos <= |s| && (pos == 0 || pos <= len)
      invariant loc == FindFrom(s, [delim], pos)
      invariant n == 1 + CharCount(s[..pos], delim)
      decreases |s| - pos
    {
      var p := loc.value;
      FindChar(s, delim, pos, |s|);
      CharCountSkip(s, delim, pos, p);
      assert s[..p + 1][..p] == s[..p];
      n := n + 1;
      pos := p + 1;
      loc := FindFrom(s, [delim], pos);
    }
    var t := Clip(s, len);
    FindChar(s, delim, pos, |t|);
    CharCountSkip(s, delim, pos, |t|);
    FieldsCount(t, delim);
  }

  /**
   * `strchr` as the search for a one-character pattern: what it finds is
   * the character, and no character before it (or before `end`, when it
   * finds nothing before `end`) is one.
   */
  lemma FindChar(s: seq<char>, c: char, from: nat, end: nat)
    requires from <= end <= |s|
    ensures var r := FindFrom(s, [c], from);
      && (r.Some? ==> s[r.value] == c && forall k :: from <= k < r.value ==> s[k] != c)
      && (r.None? || r.value >= end ==> forall k :: from <= k < end ==> s[k] != c)
  {
    FindFromIsFirst(s, [c], from);
    forall k | from <= k < |s|
      ensures MatchAt(s, [c], k) <==> s[k] == c
    {
      assert s[k..k + 1] == [s[k]];
    }
  }
}
