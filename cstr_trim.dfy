/**
 * The character-level string helpers of the `cstr_` family: trimming a
 * character or white space from either end, finding a character from
 * either end, replacing a character and narrowing a range to its
 * non-blank part. Helpers that write into the caller's buffer take an
 * array and a start index (a `char *` into that array); read-only helpers
 * take the characters of the string.
 */
module CStrTrim {
  import opened CTypes

  /** `cstr_Ltrim_chr`: the offset of the first character that is not `ch`. */
  method LtrimChr(s: CStr, ch: char) returns (k: nat)
    ensures k <= |s|
    ensures forall i :: 0 <= i < k ==> s[i] == ch
    ensures k == |s| || s[k] != ch
  {
    k := 0;
    var p := 0;
    while p < |s|
      invariant k == p <= |s|
      invariant forall i :: 0 <= i < k ==> s[i] == ch
    {
      var c := s[p];
      p := p + 1;
      if c != ch {
        break;
      }
      k := p;
    }
  }

  /** The length of `s` once its trailing run of `ch` is removed. */
  function TrailingCut(s: seq<char>, ch: char): (k: nat)
    ensures k <= |s|
    ensures forall i :: k <= i < |s| ==> s[i] == ch
    ensures k == 0 || s[k - 1] != ch
  {
    if |s| == 0 || s[|s| - 1] != ch then |s| else TrailingCut(s[..|s| - 1], ch)
  }

  /** Extending a prefix by one character: a character other than `ch` ends the trailing run. */
  lemma TrailingCutStep(s: seq<char>, j: nat, ch: char)
    requires j < |s|
    ensures TrailingCut(s[..j + 1], ch) == if s[j] != ch then j + 1 else TrailingCut(s[..j], ch)
  {
    assert s[..j + 1][..j] == s[..j];
  }

  /**
   * The length `cstr_Rtrim_chr` cuts a string to. It remembers the last
   * character that is not `ch`, starting from the first character whatever
   * it is, so a non-empty string made only of `ch` keeps its first one.
   */
  function RtrimChrCut(s: seq<char>, ch: char): nat {
    if TrailingCut(s, ch) == 0 && |s| > 0 then 1 else TrailingCut(s, ch)
  }

  /** The C string at `buf[start..]` sits in the array character by character, with its NUL after it. */
  lemma CStringInArray(buf: array<char>, start: nat)
    requires start <= buf.Length && NUL in buf[start..]
    ensures var t := CString(buf[start..]);
      && start + |t| < buf.Length && buf[start + |t|] == NUL && NUL !in t
      && forall i :: 0 <= i < |t| ==> buf[start + i] == t[i] && t[i] != NUL
  {
    var t := CString(buf[start..]);
    assert buf[start..][|t|] == NUL;
    forall i | 0 <= i < |t|
      ensures buf[start + i] == t[i]
    {
      assert buf[start..][i] == t[i];
      assert t[i] in t;
    }
  }

  /**
   * The scan of `cstr_Rtrim_chr` over the string `s` stored at
   * `buf[start..]`: walks `p` to its NUL, leaving `q` at the last character
   * that is not `ch` (or at `start`).
   */
  method ScanLastKept(buf: array<char>, start: nat, ch: char, ghost s: seq<char>) returns (q: nat, p: nat)
    requires start + |s| < buf.Length && buf[start + |s|] == NUL
    requires forall m :: 0 <= m < |s| ==> buf[start + m] == s[m] && s[m] != NUL
    ensures p == start + |s|
    ensures q == start + (if TrailingCut(s, ch) > 0 then TrailingCut(s, ch) - 1 else 0)
  {
    q := start;
    var j := 0;
    ghost var k := 0;
    while buf[start + j] != NUL
      invariant 0 <= j <= |s|
      invariant j < |s| ==> buf[start + j] == s[j] && s[j] != NUL
      invariant k == TrailingCut(s[..j], ch)
      invariant q - start == (if k > 0 then k - 1 else 0)
      decreases |s| - j
    {
      assert j < |s| && buf[start + j] == s[j];
      TrailingCutStep(s, j, ch);
      if buf[start + j] != ch {
        q := start + j;
        k := j + 1;
      }
      j := j + 1;
    }
    assert s[..j] == s;
    p := start + j;
  }

  /** `cstr_Rtrim_chr` as written: cuts the string at `buf[p..]` in place and returns its new length. */
  method RtrimChr(buf: array<char>, p: nat, ch: char) returns (outlen: nat)
    requires p <= buf.Length && NUL in buf[p..]
    modifies buf
    ensures outlen == RtrimChrCut(CString(old(buf[p..])), ch)
    ensures p + outlen < buf.Length && buf[..] == old(buf[..])[p + outlen := NUL]
  {
    CStringInArray(buf, p);
    var q, end := ScanLastKept(buf, p, ch, CString(buf[p..]));
    if q + 1 <= end {
      buf[q + 1] := NUL;
      outlen := q + 1 - p;
    } else {
      outlen := 0;
    }
  }

  /**
   * The scan of the corrected right trim over the string `s` stored at
   * `buf[start..]`: the length up to and including its last character that
   * is not `ch`.
   */
  method ScanTrailingCut(buf: array<char>, start: nat, ch: char, ghost s: seq<char>) returns (k: nat)
    requires start + |s| < buf.Length && buf[start + |s|] == NUL
    requires forall m :: 0 <= m < |s| ==> buf[start + m] == s[m] && s[m] != NUL
    ensures k == TrailingCut(s, ch)
  {
    k := 0;
    var j := 0;
    while buf[start + j] != NUL
      invariant 0 <= j <= |s|
      invariant j < |s| ==> buf[start + j] == s[j] && s[j] != NUL
      invariant k == TrailingCut(s[..j], ch)
      decreases |s| - j
    {
      assert j < |s| && buf[start + j] == s[j];
      TrailingCutStep(s, j, ch);
      if buf[start + j] != ch {
        k := j + 1;
      }
      j := j + 1;
    }
    assert s[..j] == s;
  }

  /** `cstr_Rtrim_chr` as evidently intended: removes the whole trailing run of `ch`. */
  method RtrimChrAll(buf: array<char>, p: nat, ch: char) returns (outlen: nat)
    requires p <= buf.Length && NUL in buf[p..]
    modifies buf
    ensures outlen == TrailingCut(CString(old(buf[p..])), ch)
    ensures p + outlen < buf.Length && buf[..] == old(buf[..])[p + outlen := NUL]
  {
    CStringInArray(buf, p);
    outlen := ScanTrailingCut(buf, p, ch, CString(buf[p..]));
    buf[p + outlen] := NUL;
  }

  /** A string made only of the trimmed character keeps one of them: `"aa"` trimmed of `'a'` leaves `"a"`. */
  lemma RtrimChrKeepsOne()
    ensures RtrimChrCut("aa", 'a') == 1 && "aa"[..1] == "a"
    ensures TrailingCut("aa", 'a') == 0
  {
    assert TrailingCut("aa"[..1], 'a') == TrailingCut("a"[..0], 'a');
  }

  /** The right-trimmed string never ends with the trimmed character, and only that run is removed. */
  lemma {:induction false} TrailingCutIsTrim(s: seq<char>, ch: char)
    ensures s == s[..TrailingCut(s, ch)] + seq(|s| - TrailingCut(s, ch), _ => ch)
    ensures TrailingCut(s, ch) == 0 || s[..TrailingCut(s, ch)][TrailingCut(s, ch) - 1] != ch
  {
    var k := TrailingCut(s, ch);
    assert s[k..] == seq(|s| - k, _ => ch);
    assert s == s[..k] + s[k..];
  }

  /**
   * `cstr_LRtrim_chr` (right trim after left trim): once the leading run is
   * gone the string cannot consist of `ch` alone, so the right trim removes
   * exactly the trailing run.
   */
  method LRtrimChr(buf: array<char>, p: nat, ch: char) returns (start: nat, outlen: nat)
    requires p <= buf.Length && NUL in buf[p..]
    modifies buf
    ensures var s := CString(old(buf[p..]));
      && p <= start <= p + |s|
      && (forall i :: p <= i < start ==> old(buf[i]) == ch)
      && (start == p + |s| || old(buf[start]) != ch)
      && outlen == TrailingCut(s[start - p..], ch)
      && start + outlen < buf.Length
      && buf[..] == old(buf[..])[start + outlen := NUL]
  {
    ghost var b0 := buf[..];
    ghost var s := CString(buf[p..]);
    var k := LtrimChr(CString(buf[p..]), ch);
    start := p + k;
    CStringInArray(buf, p);
    forall i | p <= i < start
      ensures b0[i] == ch
    {
      assert b0[p + (i - p)] == s[i - p] == ch;
    }
    assert k < |s| ==> b0[p + k] == s[k] != ch;
    CStringSuffix(b0, p, k);
    ghost var t := CString(b0[start..]);
    assert t == s[start - p..];
    outlen := RtrimChr(buf, start, ch);
    LtrimmedCutIsExact(t, ch);
  }

  lemma LtrimmedCutIsExact(t: seq<char>, ch: char)
    requires t == [] || t[0] != ch
    ensures RtrimChrCut(t, ch) == TrailingCut(t, ch)
  {
  }

  /** `cstr_Lfind_chr`: the first `c` among the first `len` characters, stopping at the end of the string. */
  method LfindChr(str: Option<CStr>, len: int, c: char) returns (r: Option<nat>)
    ensures str.None? || len <= 0 ==> r.None?
    ensures r.Some? ==> str.Some? && r.value < len && r.value < |str.value| && str.value[r.value] == c
    ensures r.Some? ==> forall j :: 0 <= j < r.value ==> str.value[j] != c
    ensures r.None? && str.Some? ==> forall j :: 0 <= j < len && j < |str.value| ==> str.value[j] != c
  {
    if str.None? || len <= 0 {
      return None;
    }
    var s := str.value;
    var p := 0;
    while p < len && p < |s|
      invariant 0 <= p <= |s|
      invariant forall j :: 0 <= j < p ==> s[j] != c
    {
      if s[p] == c {
        return Some(p);
      }
      p := p + 1;
    }
    return None;
  }

  /** `cstr_Rfind_chr`: the last `c` among the first `len` bytes of the buffer (NULs included). */
  method RfindChr(str: Option<seq<char>>, len: int, c: char) returns (r: Option<nat>)
    requires str.Some? && len > 0 ==> len <= |str.value|
    ensures str.None? || len <= 0 ==> r.None?
    ensures r.Some? ==> str.Some? && r.value < len && str.value[r.value] == c
    ensures r.Some? ==> forall j :: r.value < j < len ==> str.value[j] != c
    ensures r.None? && str.Some? ==> forall j :: 0 <= j < len ==> str.value[j] != c
  {
    if str.None? || len <= 0 {
      return None;
    }
    var s := str.value;
    var p := len - 1;
    while p >= 0
      invariant -1 <= p < len
      invariant forall j :: p < j < len ==> s[j] != c
    {
      if s[p] == c {
        return Some(p);
      }
      p := p - 1;
    }
    return None;
  }

  /** `cstr_Ltrim_whitespace`: the offset of the first non-blank character (NULL stays NULL). */
  method LtrimWhitespace(str: Option<CStr>) returns (r: Option<nat>)
    ensures r.Some? <==> str.Some?
    ensures r.Some? ==> r.value <= |str.value|
    ensures r.Some? ==> forall i :: 0 <= i < r.value ==> IsSpace(str.value[i])
    ensures r.Some? ==> r.value == |str.value| || !IsSpace(str.value[r.value])
  {
    if str.None? {
      return None;
    }
    var s := str.value;
    var p := 0;
    while p < |s| && IsSpace(s[p])
      invariant 0 <= p <= |s|
      invariant forall i :: 0 <= i < p ==> IsSpace(s[i])
    {
      p := p + 1;
    }
    return Some(p);
  }

  /** `b` with the characters from `lo` up to `hi` overwritten by NULs. */
  function Blanked(b: seq<char>, lo: nat, hi: nat): (r: seq<char>)
    requires lo <= hi <= |b|
    ensures |r| == |b|
  {
    b[..lo] + seq(hi - lo, _ => NUL) + b[hi..]
  }

  /** What `Blanked` holds at each position. */
  lemma BlankedAt(b: seq<char>, lo: nat, hi: nat)
    requires lo <= hi <= |b|
    ensures forall i :: 0 <= i < |b| ==> Blanked(b, lo, hi)[i] == if lo <= i < hi then NUL else b[i]
  {
  }

  /** Every character of `b` from `lo` up to `hi` is blank. */
  predicate AllBlank(b: seq<char>, lo: nat, hi: nat)
    requires lo <= hi <= |b|
  {
    forall i :: lo <= i < hi ==> IsSpace(b[i])
  }

  /**
   * `cstr_Rtrim_whitespace`: overwrites the trailing blanks among the `len`
   * characters at `buf[p..]` with NULs and returns the length left. A
   * negative `len` is returned as it is.
   */
  method RtrimWhitespace(buf: array<char>, p: nat, len: int) returns (n: int)
    requires len >= 0 ==> p + len <= buf.Length
    modifies buf
    ensures len <= 0 ==> n == len && buf[..] == old(buf[..])
    ensures len >= 0 ==> 0 <= n <= len && buf[..] == Blanked(old(buf[..]), p + n, p + len)
    ensures len >= 0 ==> AllBlank(old(buf[..]), p + n, p + len)
    ensures n > 0 ==> !IsSpace(buf[p + n - 1])
  {
    if len <= 0 {
      if len == 0 {
        BlankedAt(buf[..], p, p);
        assert buf[..] == Blanked(buf[..], p, p);
      }
      return len;
    }
    var k := len;
    while k > 0 && IsSpace(buf[p + k - 1])
      invariant 0 <= k <= len
      invariant forall i :: 0 <= i < buf.Length ==>
        buf[i] == (if p + k <= i < p + len then NUL else old(buf[i]))
      invariant forall i :: p + k <= i < p + len ==> IsSpace(old(buf[i]))
    {
      buf[p + k - 1] := NUL;
      k := k - 1;
    }
    n := k;
    BlankedAt(old(buf[..]), p + n, p + len);
    assert buf[..] == Blanked(old(buf[..]), p + n, p + len);
  }

  /** The number of blanks `s` starts with. */
  function LeadingBlanks(s: seq<char>): (k: nat)
    ensures k <= |s|
    ensures forall i :: 0 <= i < k ==> IsSpace(s[i])
    ensures k == |s| || !IsSpace(s[k])
  {
    if |s| == 0 || !IsSpace(s[0]) then 0 else 1 + LeadingBlanks(s[1..])
  }

  /** The length of `s` once its trailing blanks are removed. */
  function TrailingBlankCut(s: seq<char>): (k: nat)
    ensures k <= |s|
    ensures forall i :: k <= i < |s| ==> IsSpace(s[i])
    ensures k == 0 || !IsSpace(s[k - 1])
  {
    if |s| == 0 || !IsSpace(s[|s| - 1]) then |s| else TrailingBlankCut(s[..|s| - 1])
  }

  /** The characters of `s` with leading and trailing blanks removed. */
  function TrimWhitespace(s: seq<char>): seq<char> {
    var a := LeadingBlanks(s);
    s[a..][..TrailingBlankCut(s[a..])]
  }

  /**
   * The buffer `b` once `cstr_LRtrim_whitespace` has run on the string at
   * `p`: the trailing blanks of that string are NULs and nothing else
   * changes.
   */
  function LRtrimmedBuffer(b: seq<char>, p: nat): (r: seq<char>)
    requires p <= |b| && NUL in b[p..]
    ensures |r| == |b|
  {
    var s := CString(b[p..]);
    Blanked(b, p + LeadingBlanks(s) + |TrimWhitespace(s)|, p + |s|)
  }

  /** Only one count of leading blanks fits their description. */
  lemma LeadingBlanksUnique(s: seq<char>, k: nat)
    requires k <= |s|
    requires forall i :: 0 <= i < k ==> IsSpace(s[i])
    requires k == |s| || !IsSpace(s[k])
    ensures k == LeadingBlanks(s)
  {
  }

  /** Only one cut removes exactly the trailing blanks. */
  lemma TrailingBlankCutUnique(s: seq<char>, k: nat)
    requires k <= |s|
    requires forall i :: k <= i < |s| ==> IsSpace(s[i])
    requires k == 0 || !IsSpace(s[k - 1])
    ensures k == TrailingBlankCut(s)
  {
  }

  /** Trimming leaves no blank at either end, and trimming twice is trimming once. */
  lemma TrimWhitespaceIdempotent(s: seq<char>)
    ensures var t := TrimWhitespace(s); t == [] || (!IsSpace(t[0]) && !IsSpace(t[|t| - 1]))
    ensures TrimWhitespace(TrimWhitespace(s)) == TrimWhitespace(s)
  {
    var t := TrimWhitespace(s);
    var a := LeadingBlanks(s);
    var b := TrailingBlankCut(s[a..]);
    if b > 0 {
      assert t[0] == s[a];
    }
    LeadingBlanksUnique(t, 0);
    assert t[0..] == t;
    TrailingBlankCutUnique(t, |t|);
  }

  /**
   * `cstr_LRtrim_whitespace` on the string at `buf[p..]`: skips the leading
   * blanks, turns the trailing ones into NULs, and returns where the
   * trimmed string starts.
   */
  method LRtrimWhitespace(buf: array<char>, p: nat) returns (start: nat)
    requires p <= buf.Length && NUL in buf[p..]
    modifies buf
    ensures start <= buf.Length && NUL in buf[start..]
    ensures p <= start == p + LeadingBlanks(CString(old(buf[p..])))
    ensures CString(buf[start..]) == TrimWhitespace(CString(old(buf[p..])))
    ensures buf[..start] == old(buf[..start])
    ensures buf[..] == LRtrimmedBuffer(old(buf[..]), p)
  {
    ghost var b0 := buf[..];
    var lead := LtrimWhitespace(Some(CString(buf[p..])));
    start := p + lead.value;
    LtrimOffset(b0, p, lead.value);
    var len := |CString(buf[start..])|;
    var n := RtrimWhitespace(buf, start, len);
    RtrimResult(b0, buf[..], start, len, n);
    LRtrimResult(b0, buf[..], p, lead.value, start, len, n);
  }

  /** The left trim's offset is the count of leading blanks, and the string there is the rest. */
  lemma LtrimOffset(b0: seq<char>, p: nat, k: nat)
    requires p <= |b0| && NUL in b0[p..]
    requires var s := CString(b0[p..]);
      && k <= |s| && (forall i :: 0 <= i < k ==> IsSpace(s[i])) && (k == |s| || !IsSpace(s[k]))
    ensures k == LeadingBlanks(CString(b0[p..]))
    ensures NUL in b0[p + k..] && CString(b0[p + k..]) == CString(b0[p..])[k..]
  {
    LeadingBlanksUnique(CString(b0[p..]), k);
    CStringSuffix(b0, p, k);
  }

  /** The left trim's offset and the right trim's length together give the trimmed string. */
  lemma LRtrimResult(b0: seq<char>, b1: seq<char>, p: nat, k: nat, start: nat, len: nat, n: nat)
    requires p <= |b0| && NUL in b0[p..] && k == LeadingBlanks(CString(b0[p..]))
    requires start == p + k && start <= |b0| && NUL in b0[start..]
    requires CString(b0[start..]) == CString(b0[p..])[k..] && len == |CString(b0[start..])|
    requires n == TrailingBlankCut(CString(b0[start..])) && n <= len
    requires start <= |b1| && NUL in b1[start..] && CString(b1[start..]) == CString(b0[start..])[..n]
    requires b1 == Blanked(b0, start + n, start + len)
    ensures CString(b1[start..]) == TrimWhitespace(CString(b0[p..]))
    ensures b1 == LRtrimmedBuffer(b0, p)
  {
    var s, t := CString(b0[p..]), CString(b0[start..]);
    TrimmedAfterLead(s, k, t, n);
    assert |TrimWhitespace(s)| == n && start + len == p + |s|;
    LRtrimmedBufferIs(b0, b1, p, start, len, n);
  }

  /** Blanking from the trimmed length to the string's end is what `LRtrimmedBuffer` describes. */
  lemma LRtrimmedBufferIs(b0: seq<char>, b1: seq<char>, p: nat, start: nat, len: nat, n: nat)
    requires p <= |b0| && NUL in b0[p..]
    requires var s := CString(b0[p..]);
      start == p + LeadingBlanks(s) && start + len == p + |s| && n == |TrimWhitespace(s)| && n <= len
    requires b1 == Blanked(b0, start + n, start + len)
    ensures b1 == LRtrimmedBuffer(b0, p)
  {
  }

  /** Trimming is cutting the trailing blanks after the leading ones are skipped. */
  lemma TrimmedAfterLead(s: seq<char>, k: nat, t: seq<char>, n: int)
    requires k == LeadingBlanks(s) && t == s[k..] && n == TrailingBlankCut(t)
    ensures TrimWhitespace(s) == t[..n]
  {
  }

  /**
   * What `cstr_Rtrim_whitespace` leaves at `start` when given the length of
   * the string there: that string without its trailing blanks.
   */
  lemma RtrimResult(b0: seq<char>, b1: seq<char>, start: nat, len: nat, n: int)
    requires start <= |b0| && NUL in b0[start..] && len == |CString(b0[start..])|
    requires 0 <= n <= len && b1 == Blanked(b0, start + n, start + len)
    requires AllBlank(b0, start + n, start + len)
    requires n > 0 ==> !IsSpace(b1[start + n - 1])
    ensures var t := CString(b0[start..]);
      && n == TrailingBlankCut(t) && start <= |b1|
      && NUL in b1[start..] && CString(b1[start..]) == t[..n]
    ensures b1[..start] == b0[..start]
  {
    var t := CString(b0[start..]);
    CStringAt(b0, start);
    TrailingCutFromBuffer(b0, start, t, n);
    BlankedCString(b0, b1, start, t, n);
    BlankedKeepsBelow(b0, start + n, start + len, start);
  }

  /** The C string at `b[start..]` sits in `b` character by character, with its NUL after it. */
  lemma CStringAt(b: seq<char>, start: nat)
    requires start <= |b| && NUL in b[start..]
    ensures var t := CString(b[start..]);
      && start + |t| < |b| && b[start + |t|] == NUL && NUL !in t
      && forall i :: 0 <= i < |t| ==> b[start + i] == t[i]
  {
    var t := CString(b[start..]);
    assert b[start..][|t|] == NUL;
    forall i | 0 <= i < |t|
      ensures b[start + i] == t[i]
    {
      assert b[start..][i] == t[i];
    }
  }

  /** Where the trailing blanks of a string stored in a buffer start, read off the buffer. */
  lemma TrailingCutFromBuffer(b: seq<char>, start: nat, t: seq<char>, n: nat)
    requires start + |t| <= |b| && n <= |t|
    requires forall i :: 0 <= i < |t| ==> b[start + i] == t[i]
    requires AllBlank(b, start + n, start + |t|)
    requires n > 0 ==> !IsSpace(b[start + n - 1])
    ensures n == TrailingBlankCut(t)
  {
    forall i | n <= i < |t|
      ensures IsSpace(t[i])
    {
      assert b[start + i] == t[i];
    }
    if n > 0 {
      assert b[start + (n - 1)] == t[n - 1];
    }
    TrailingBlankCutUnique(t, n);
  }

  /** Blanking the tail of a stored C string from `n` on leaves its first `n` characters as the C string. */
  lemma BlankedCString(b0: seq<char>, b1: seq<char>, start: nat, t: seq<char>, n: nat)
    requires start + |t| < |b0| && b0[start + |t|] == NUL && NUL !in t && n <= |t|
    requires forall i :: 0 <= i < |t| ==> b0[start + i] == t[i]
    requires b1 == Blanked(b0, start + n, start + |t|)
    ensures start <= |b1| && NUL in b1[start..] && CString(b1[start..]) == t[..n]
  {
    BlankedAt(b0, start + n, start + |t|);
    var c := b1[start..];
    forall i | 0 <= i < n
      ensures c[i] == t[..n][i]
    {
      assert b0[start + i] == t[i];
    }
    assert c[..n] == t[..n];
    assert c[n] == NUL;
    CStringIs(c, t[..n]);
  }

  /** Blanking from `lo` on leaves everything before `lo` as it was. */
  lemma BlankedKeepsBelow(b: seq<char>, lo: nat, hi: nat, m: nat)
    requires m <= lo <= hi <= |b|
    ensures Blanked(b, lo, hi)[..m] == b[..m]
  {
    BlankedAt(b, lo, hi);
  }

  /** A buffer holding `t` and then a NUL starts with the C string `t`. */
  lemma CStringIs(b: seq<char>, t: seq<char>)
    requires |t| < |b| && b[..|t|] == t && b[|t|] == NUL && NUL !in t
    ensures NUL in b && CString(b) == t
  {
    var n := StrLen(b);
    assert forall i :: 0 <= i < |t| ==> b[i] == t[i] && t[i] != NUL;
    assert forall i :: 0 <= i < n ==> b[..n][i] == b[i] && b[i] != NUL;
  }

  lemma TrimOf(s: seq<char>, k: nat, n: nat)
    requires k + n <= |s|
    requires forall i :: 0 <= i < k ==> IsSpace(s[i])
    requires k == |s| || !IsSpace(s[k])
    requires forall i :: k + n <= i < |s| ==> IsSpace(s[i])
    requires n > 0 ==> !IsSpace(s[k + n - 1])
    ensures TrimWhitespace(s) == s[k..][..n]
  {
    LeadingBlanksUnique(s, k);
    TrailingBlankCutUnique(s[k..], n);
  }

  /** The string at `p + k` is the string at `p` less its first `k` characters. */
  lemma CStringSuffix(b: seq<char>, p: nat, k: nat)
    requires p <= |b| && NUL in b[p..] && k <= |CString(b[p..])|
    ensures NUL in b[p + k..] && CString(b[p + k..]) == CString(b[p..])[k..]
  {
    var s := CString(b[p..]);
    var t := b[p + k..];
    assert t == b[p..][k..];
    assert t[|s| - k] == NUL;
    assert t[..|s| - k] == s[k..];
  }

  /**
   * `cstr_shrink_whitespace`: narrows the range from `start` to `end`
   * (inclusive) of `str` past blanks on both sides and returns the new
   * bounds with the length `end - start + 1` (zero or less when the range
   * is blank).
   */
  method ShrinkWhitespace(str: seq<char>, start: int, end: int) returns (s: int, e: int, n: int)
    requires start <= end ==> 0 <= start && end < |str|
    ensures n == e - s + 1
    ensures start <= s && (s <= end || s == start)
    ensures forall i :: start <= i < s ==> IsSpace(str[i])
    ensures s < end ==> !IsSpace(str[s])
    ensures e <= end && (e >= s - 1 || e == end)
    ensures forall i :: e < i <= end ==> IsSpace(str[i])
    ensures e >= s ==> !IsSpace(str[e])
  {
    s := start;
    while s < end && IsSpace(str[s])
      invariant start <= s && (s <= end || s == start)
      invariant forall i :: start <= i < s ==> IsSpace(str[i])
    {
      s := s + 1;
    }
    e := end;
    while e >= s && IsSpace(str[e])
      invariant e <= end && (e >= s - 1 || e == end)
      invariant forall i :: e < i <= end ==> IsSpace(str[i])
    {
      e := e - 1;
    }
    n := e - s + 1;
  }

  /** Each `ch` replaced by `rpl`. */
  function ReplacedChr(s: seq<char>, ch: char, rpl: char): (t: seq<char>)
    ensures |t| == |s|
    ensures forall i :: 0 <= i < |s| ==> t[i] == (if s[i] == ch then rpl else s[i])
  {
    if s == [] then [] else [if s[0] == ch then rpl else s[0]] + ReplacedChr(s[1..], ch, rpl)
  }

  /**
   * `cstr_replace_chr`: replaces every `ch` of the string at `buf[p..]` by
   * `rpl`, up to the string's original end (a NULL buffer is left alone).
   */
  method ReplaceChr(buf: array?<char>, p: nat, ch: char, rpl: char)
    requires buf != null ==> p <= buf.Length && NUL in buf[p..]
    modifies buf
    ensures buf != null ==>
      var n := |CString(old(buf[p..]))|;
      && buf[..p] == old(buf[..p])
      && buf[p..p + n] == ReplacedChr(old(buf[p..p + n]), ch, rpl)
      && buf[p + n..] == old(buf[p + n..])
  {
    if buf == null {
      return;
    }
    ghost var b0 := buf[..];
    CStringInArray(buf, p);
    ghost var t := CString(buf[p..]);
    ghost var n := |t|;
    var i := p;
    ghost var j := 0;
    while buf[i] != NUL
      invariant 0 <= j <= n && i == p + j
      invariant forall m :: 0 <= m < buf.Length ==>
        buf[m] == (if p <= m < i && b0[m] == ch then rpl else b0[m])
      decreases n - j
    {
      assert b0[p + j] == t[j];
      if buf[i] == ch {
        buf[i] := rpl;
      }
      i := i + 1;
      j := j + 1;
    }
    assert j == n;
    ReplacedInPlace(b0, buf[..], p, n, ch, rpl);
  }

  /** A buffer whose characters from `p` to `p + n` have had `ch` replaced by `rpl`, and no others changed. */
  lemma ReplacedInPlace(b0: seq<char>, b1: seq<char>, p: nat, n: nat, ch: char, rpl: char)
    requires p + n <= |b0| == |b1|
    requires forall m :: 0 <= m < |b0| ==> b1[m] == (if p <= m < p + n && b0[m] == ch then rpl else b0[m])
    ensures b1[..p] == b0[..p]
    ensures b1[p..p + n] == ReplacedChr(b0[p..p + n], ch, rpl)
    ensures b1[p + n..] == b0[p + n..]
  {
    var r := ReplacedChr(b0[p..p + n], ch, rpl);
    forall k | 0 <= k < n
      ensures b1[p..p + n][k] == r[k]
    {
      assert b0[p..p + n][k] == b0[p + k];
    }
  }

  /** Replacing a character that does not occur changes nothing; afterwards `ch` no longer occurs unless it is `rpl`. */
  lemma {:induction false} ReplacedChrEffect(s: seq<char>, ch: char, rpl: char)
    ensures ch !in s ==> ReplacedChr(s, ch, rpl) == s
    ensures ch != rpl ==> ch !in ReplacedChr(s, ch, rpl)
  {
    if ch !in s {
      assert forall i :: 0 <= i < |s| ==> ReplacedChr(s, ch, rpl)[i] == s[i];
    }
  }
}
