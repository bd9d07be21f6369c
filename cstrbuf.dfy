/**
 * `cstrbuf`: a heap string buffer with a capacity `maxsz` (a multiple of
 * the 16-byte block once it has been aligned) and a length `len` below it.
 * The bytes of the buffer are an array; `Contents()` is the first `len` of
 * them. The formatting engine behind `cstrbufCat` is reduced to "append
 * these bytes": its caller passes what `vsnprintf` would produce.
 */
module CStrBuffer {
  import opened CTypes

  const BLOCK_SIZE: int := 16
  /** `cstrbuf_error_size_len`: `(ub4)-1`, asking for the length to be measured. */
  const ERROR_SIZE_LEN: int := UB4_LIMIT - 1
  /** `cstr_length_maximum`: the bound `cstrbufNew` measures a string up to. */
  const CSTR_LENGTH_MAXIMUM: int := 536870911
  /** `cstrbuf_len_max`. */
  const CSTRBUF_LEN_MAX: int := 134217727

  /**
   * `cstrbuf_alignsize`: the next multiple of 16 above `x`, in `ub4`
   * arithmetic, so it wraps to a small value within 16 of 2^32.
   */
  function AlignSize(x: ub4): (r: ub4)
    ensures r % BLOCK_SIZE == 0
    ensures x + BLOCK_SIZE < UB4_LIMIT ==> x < r <= x + BLOCK_SIZE
  {
    (((x + BLOCK_SIZE) % UB4_LIMIT) / BLOCK_SIZE) * BLOCK_SIZE
  }

  /** Aligning the largest block-aligned `ub4` wraps around to nothing. */
  lemma AlignSizeWraps()
    ensures AlignSize(UB4_LIMIT - BLOCK_SIZE) == 0
  {
  }

  /** The length `cstrbufNew` takes: `len`, or the measured string for `(ub4)-1`. */
  function NewLength(s: Option<CStr>, len: ub4): (n: ub4)
    ensures len != ERROR_SIZE_LEN ==> n == len
    ensures len == ERROR_SIZE_LEN && s.None? ==> n == 0
    ensures len == ERROR_SIZE_LEN && s.Some? ==> n <= |s.value| && n <= CSTR_LENGTH_MAXIMUM
    ensures len == ERROR_SIZE_LEN && s.Some? && |s.value| <= CSTR_LENGTH_MAXIMUM ==> n == |s.value|
  {
    if len != ERROR_SIZE_LEN then len
    else if s.None? then 0
    else if |s.value| < CSTR_LENGTH_MAXIMUM then |s.value| else CSTR_LENGTH_MAXIMUM
  }

  /**
   * The capacity `cstrbufNew` allocates for a requested `maxsz` and a
   * length `n`: 0 asks for exactly `n + 1`; `(ub4)-1` or a size that does
   * not exceed `n` asks for `n + 1` aligned; any larger size is aligned.
   */
  function NewSize(maxsz: ub4, n: ub4): (r: int)
    requires n < ERROR_SIZE_LEN
    ensures maxsz != 0 ==> 0 <= r < UB4_LIMIT && r % BLOCK_SIZE == 0
    ensures maxsz == 0 ==> r == n + 1
    ensures maxsz != 0 && n + 1 + BLOCK_SIZE < UB4_LIMIT && (maxsz == ERROR_SIZE_LEN || maxsz <= n) ==> n + 1 < r
    ensures maxsz + BLOCK_SIZE < UB4_LIMIT && n < maxsz ==> maxsz < r
  {
    if maxsz == 0 then n + 1
    else if maxsz == ERROR_SIZE_LEN || maxsz <= n then AlignSize(n + 1)
    else AlignSize(maxsz)
  }

  /** Below `cstrbuf_len_max` the capacity always exceeds the length, whatever size is asked for. */
  lemma NewSizeExceedsLength(maxsz: ub4, n: ub4)
    requires n <= CSTRBUF_LEN_MAX
    requires maxsz + BLOCK_SIZE < UB4_LIMIT || maxsz == ERROR_SIZE_LEN
    ensures n < NewSize(maxsz, n) < UB4_LIMIT
  {
  }

  /** The bytes `memcpy` may read from a C string: its characters and its NUL. */
  function Bytes(s: CStr): seq<char> {
    s + [NUL]
  }

  /** What a buffer holds after `w` is written at `at`: the old bytes before `at`, then `w`. */
  lemma WrittenAt(b0: seq<char>, at: nat, w: seq<char>, b1: seq<char>, m: nat)
    requires at + |w| <= |b0| && m <= |w|
    requires b1 == b0[..at] + w + b0[at + |w|..]
    ensures |b1| == |b0| && b1[..at + m] == b0[..at] + w[..m]
    ensures forall i :: 0 <= i < |w| ==> b1[at + i] == w[i]
  {
    assert b1[..at + m] == (b0[..at] + w)[..at + m];
  }

  class CStrBuf {
    var maxsz: int
    var len: int
    var str: array<char>

    ghost predicate Valid()
      reads this, str
    {
      str.Length == maxsz && 0 <= len < maxsz < UB4_LIMIT
    }

    /** The byte after the contents is a NUL, so `str` reads as a C string of length `len`. */
    ghost predicate Terminated()
      reads this, str
      requires Valid()
    {
      str[len] == NUL
    }

    ghost function Contents(): seq<char>
      reads this, str
      requires Valid()
    {
      str[..len]
    }

    /** The allocation and fill of `cstrbufNew`: `content`, then zeros up to `size`. */
    constructor Init(size: int, content: seq<char>)
      requires |content| < size < UB4_LIMIT
      ensures Valid() && Terminated() && fresh(str)
      ensures maxsz == size && len == |content| && Contents() == content
      ensures forall i :: len <= i < maxsz ==> str[i] == NUL
    {
      maxsz := size;
      len := |content|;
      str := new char[size](i => if 0 <= i < |content| then content[i] else NUL);
      new;
      assert str[..len] == content;
    }

    /**
     * `cstrbufNew`: a buffer of capacity `NewSize(maxsz, n)` holding the first
     * `n` bytes of `s`, zero-filled after them; a NULL string gives an empty
     * buffer. The computed capacity must exceed `n`, as the zero fill of
     * `maxsz - len` bytes needs.
     */
    static method New(maxsz: ub4, s: Option<CStr>, len: ub4) returns (csb: CStrBuf)
      requires s.Some? && len != ERROR_SIZE_LEN ==> len <= |s.value| + 1
      requires NewLength(s, len) < ERROR_SIZE_LEN
      requires NewLength(s, len) < NewSize(maxsz, NewLength(s, len)) < UB4_LIMIT
      ensures fresh(csb) && fresh(csb.str) && csb.Valid() && csb.Terminated()
      ensures var n := NewLength(s, len);
        && csb.maxsz == NewSize(maxsz, n)
        && csb.Contents() == (if s.Some? then Bytes(s.value)[..n] else [])
      ensures forall i :: csb.len <= i < csb.maxsz ==> csb.str[i] == NUL
    {
      var n := NewLength(s, len);
      var size := NewSize(maxsz, n);
      if s.Some? {
        csb := new CStrBuf.Init(size, Bytes(s.value)[..n]);
      } else {
        csb := new CStrBuf.Init(size, []);
      }
    }

    /** `cstrbufCharAtSafe`: the index `at` when it lies within the contents, NULL otherwise. */
    static function CharAtSafe(csb: CStrBuf?, at: int): (r: Option<int>)
      reads csb
      ensures r.Some? <==> csb != null && 0 <= at < csb.len
      ensures r.Some? ==> r.value == at
    {
      if csb != null && 0 <= at < csb.len then Some(at) else None
    }

    /** `cstrbufTrunc`: shortens the contents to `newlen` when they are longer, never lengthens them. */
    method Trunc(newlen: ub4)
      requires Valid()
      modifies this, str
      ensures Valid() && maxsz == old(maxsz) && str == old(str)
      ensures len == if old(len) > newlen then newlen else old(len)
      ensures Contents() == old(Contents())[..len]
      ensures old(len) > newlen ==> str[..] == old(str[..])[newlen := NUL]
      ensures old(len) <= newlen ==> str[..] == old(str[..])
    {
      if len > newlen {
        len := newlen;
        str[len] := NUL;
      }
    }

    /** Writes `bytes` from index `at` on, as `memcpy` does. */
    method Write(at: nat, bytes: seq<char>)
      requires Valid() && at + |bytes| <= str.Length
      modifies str
      ensures str[..] == old(str[..])[..at] + bytes + old(str[..])[at + |bytes|..]
    {
      var k := 0;
      while k < |bytes|
        invariant 0 <= k <= |bytes|
        invariant str[..] == old(str[..])[..at] + bytes[..k] + old(str[..])[at + k..]
      {
        str[at + k] := bytes[k];
        k := k + 1;
        assert bytes[..k] == bytes[..k - 1] + [bytes[k - 1]];
      }
      assert bytes[..k] == bytes;
    }

    /**
     * `cstrbufCat` with the formatted output `bytes`: a NULL buffer becomes a
     * new one of capacity `|bytes| + 1` aligned; otherwise the bytes are
     * appended in place when they fit and after growing the capacity to
     * `len + |bytes| + 1` aligned when they do not. The result is always
     * NUL-terminated.
     */
    static method Cat(dst: CStrBuf?, bytes: seq<char>) returns (r: CStrBuf)
      requires dst != null ==> dst.Valid() && dst.len + |bytes| + 1 + BLOCK_SIZE < UB4_LIMIT
      requires dst == null ==> |bytes| + 1 + BLOCK_SIZE < UB4_LIMIT
      modifies dst, if dst != null then {dst.str} else {}
      ensures r.Valid() && r.Terminated()
      ensures dst == null ==> fresh(r) && r.Contents() == bytes
      ensures dst != null ==> r == dst && r.Contents() == old(dst.Contents()) + bytes
    {
      if dst == null {
        r := New(|bytes| + 1, None, 0);
        r.Write(0, bytes + [NUL]);
        r.len := |bytes|;
        assert r.str[..r.len] == bytes;
        return;
      }
      r := dst;
      if r.len + |bytes| >= r.maxsz {
        r.Grow(AlignSize(r.len + |bytes| + 1));
      }
      r.AppendInPlace(bytes);
    }

    /** The growth step of `cstrbufCat`: a new zeroed array of `size` bytes, holding the contents. */
    method Grow(size: int)
      requires Valid() && len < size < UB4_LIMIT
      modifies this
      ensures Valid() && fresh(str) && maxsz == size && len == old(len)
      ensures Contents() == old(Contents())
    {
      var grown := new char[size](i => NUL);
      forall i | 0 <= i < len {
        grown[i] := str[i];
      }
      assert grown[..len] == str[..len];
      str := grown;
      maxsz := size;
    }

    /** The in-place step of `cstrbufCat`: `bytes` and a NUL written at `len`, which grows by `|bytes|`. */
    method AppendInPlace(bytes: seq<char>)
      requires Valid() && len + |bytes| < maxsz
      modifies this, str
      ensures Valid() && Terminated() && str == old(str) && maxsz == old(maxsz)
      ensures Contents() == old(Contents()) + bytes
    {
      ghost var b0 := str[..];
      Write(len, bytes + [NUL]);
      WrittenAt(b0, len, bytes + [NUL], str[..], |bytes|);
      assert (bytes + [NUL])[..|bytes|] == bytes;
      len := len + |bytes|;
    }

    /**
     * `cstrbufPushBack` as written: when there is room the byte is stored at
     * `len` and `len` grows, but no NUL is written after it; otherwise the
     * byte goes through `Cat`, which terminates the result.
     */
    static method PushBack(dst: CStrBuf?, ch: char) returns (r: CStrBuf)
      requires dst != null ==> dst.Valid() && dst.len + 2 + BLOCK_SIZE < UB4_LIMIT
      modifies dst, if dst != null then {dst.str} else {}
      ensures r.Valid()
      ensures dst == null ==> fresh(r) && r.Contents() == [ch] && r.Terminated()
      ensures dst != null ==> r == dst && r.Contents() == old(dst.Contents()) + [ch]
      ensures dst != null && old(dst.len) + 1 < old(dst.maxsz) ==>
        r.str == old(dst.str) && r.str[..] == old(dst.str[..])[old(dst.len) := ch]
    {
      if dst != null && dst.len + 1 < dst.maxsz {
        ghost var before := dst.Contents();
        dst.str[dst.len] := ch;
        dst.len := dst.len + 1;
        assert dst.str[..dst.len] == before + [ch];
        return dst;
      }
      r := Cat(dst, [ch]);
    }

    /** `cstrbufPushBack` as evidently intended: the in-place branch also terminates the contents. */
    static method PushBackTerminated(dst: CStrBuf?, ch: char) returns (r: CStrBuf)
      requires dst != null ==> dst.Valid() && dst.len + 2 + BLOCK_SIZE < UB4_LIMIT
      modifies dst, if dst != null then {dst.str} else {}
      ensures r.Valid() && r.Terminated()
      ensures dst == null ==> fresh(r) && r.Contents() == [ch]
      ensures dst != null ==> r == dst && r.Contents() == old(dst.Contents()) + [ch]
    {
      if dst != null && dst.len + 1 < dst.maxsz {
        ghost var before := dst.Contents();
        dst.str[dst.len] := ch;
        dst.len := dst.len + 1;
        dst.str[dst.len] := NUL;
        assert dst.str[..dst.len] == before + [ch];
        return dst;
      }
      r := Cat(dst, [ch]);
    }

    /**
     * `cstrbufDup`: copies `sourcelen` bytes of `source` into `dst` when they
     * fit below its capacity, empties it for a zero length, and otherwise
     * (or for a NULL `dst`) makes a new buffer with `cstrbufNew(0, ...)`.
     * A length of `(ub4)-1` means the whole string.
     */
    static method Dup(dst: CStrBuf?, source: Option<CStr>, sourcelen: ub4) returns (r: CStrBuf)
      requires dst != null ==> dst.Valid()
      requires source.Some? && sourcelen != ERROR_SIZE_LEN ==> sourcelen <= |source.value| + 1
      requires source.None? && dst != null ==> sourcelen == 0 || sourcelen == ERROR_SIZE_LEN
      requires source.Some? ==> |source.value| < CSTRBUF_LEN_MAX
      requires sourcelen != ERROR_SIZE_LEN ==> sourcelen < CSTRBUF_LEN_MAX
      modifies dst, if dst != null then {dst.str} else {}
      ensures r.Valid() && r.Terminated()
      ensures var n := NewLength(source, sourcelen);
        r.Contents() == if source.Some? then Bytes(source.value)[..n] else []
      ensures dst != null && (NewLength(source, sourcelen) == 0 || old(dst.maxsz) > NewLength(source, sourcelen)) ==>
        r == dst && r.maxsz == old(dst.maxsz)
      ensures dst == null || (NewLength(source, sourcelen) != 0 && old(dst.maxsz) <= NewLength(source, sourcelen)) ==>
        fresh(r) && r.maxsz == NewLength(source, sourcelen) + 1
    {
      var n := NewLength(source, sourcelen);
      if dst == null {
        r := New(0, source, sourcelen);
        return;
      }
      if n == 0 {
        dst.len := 0;
        dst.str[0] := NUL;
        return dst;
      }
      if dst.maxsz > n {
        dst.Write(0, Bytes(source.value)[..n] + [NUL]);
        dst.len := n;
        assert dst.str[..n] == Bytes(source.value)[..n];
        return dst;
      }
      r := New(0, source, sourcelen);
    }

    /**
     * `cstrbufSub`: a new buffer holding `source` with the `length` bytes from
     * `startindex` replaced by the first `sublen` bytes of `substr`.
     */
    static method Sub(source: CStr, startindex: int, length: int, substr: seq<char>, sublen: int) returns (r: CStrBuf)
      requires 0 <= startindex && 0 <= length && startindex + length <= |source|
      requires 0 <= sublen <= |substr|
      requires |source| + sublen + 2 + BLOCK_SIZE < CSTRBUF_LEN_MAX
      ensures fresh(r) && r.Valid() && r.Terminated()
      ensures r.Contents() == source[..startindex] + substr[..sublen] + source[startindex + length..]
    {
      var sourlen := |source|;
      var tail: CStr := source[startindex + length..];
      var endstr := New(0, Some(tail), sourlen - startindex - length);
      assert Bytes(tail)[..|tail|] == tail;
      var rest := endstr.str[..endstr.len];
      var newlen := sourlen - length + sublen;
      r := New(newlen + 1, Some(source), startindex);
      assert Bytes(source)[..startindex] == source[..startindex];
      r.Splice(startindex, substr[..sublen], rest);
      r.len := newlen;
      r.str[newlen] := NUL;
    }

    /** The two copies of `cstrbufSub`: `sub` at `at`, then `rest` right after it. */
    method Splice(at: nat, sub: seq<char>, rest: seq<char>)
      requires Valid() && at == len && at + |sub| + |rest| < maxsz
      modifies str
      ensures str[..at + |sub| + |rest|] == old(Contents()) + sub + rest
    {
      ghost var b0 := str[..];
      Write(at, sub);
      WrittenAt(b0, at, sub, str[..], |sub|);
      ghost var b1 := str[..];
      var mid := at + |sub|;
      Write(mid, rest);
      WrittenAt(b1, mid, rest, str[..], |rest|);
    }
  }

  /**
   * A buffer made from "abcdef" with room for 16 bytes, truncated to "ab",
   * then given an 'x' in place. As written, the byte after the new contents is the stale
   * 'd', so the buffer no longer reads as the C string "abx".
   */
  method PushBackLeavesStaleByte() returns (after: char)
    ensures after == 'd'
  {
    var csb := CStrBuf.New(16, Some("abcdef"), 6);
    assert Bytes("abcdef")[..6] == "abcdef";
    assert csb.str[3] == 'd';
    csb.Trunc(2);
    var r := CStrBuf.PushBack(csb, 'x');
    after := r.str[r.len];
  }

  /** The same sequence with the corrected push-back leaves the contents terminated. */
  method PushBackTerminatedScenario() returns (contents: seq<char>, after: char)
    ensures contents == "abx" && after == NUL
  {
    var csb := CStrBuf.New(16, Some("abcdef"), 6);
    assert Bytes("abcdef")[..6] == "abcdef";
    csb.Trunc(2);
    var r := CStrBuf.PushBackTerminated(csb, 'x');
    contents := r.str[..r.len];
    after := r.str[r.len];
  }
}
