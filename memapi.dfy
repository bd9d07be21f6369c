/**
 * The size arithmetic and pointer helpers of the memory wrappers:
 * rounding a size up to an alignment, the recorded size of a scratch
 * buffer, duplicating a C string and freeing through a pointer to a
 * pointer. The allocator itself is not modelled; an allocation is a
 * fresh array.
 */
module MemApi {
  import opened CTypes

  /** `sizeof(void *)` on the 64-bit targets the library is built for. */
  const SIZEOF_VOID_P: nat := 8

  /** Adding the divisor does not change a remainder. */
  lemma ModAddDivisor(y: int, a: int)
    requires a > 0
    ensures (y + a) % a == y % a
  {
    var d := (y + a) / a - y / a - 1;
    assert d * a == y % a - (y + a) % a;
  }

  /** A multiple of `a` leaves no remainder. */
  lemma {:induction false} MultipleModZero(q: nat, a: int)
    requires a > 0
    ensures (q * a) % a == 0
  {
    if q > 0 {
      MultipleModZero(q - 1, a);
      ModAddDivisor((q - 1) * a, a);
      assert (q - 1) * a + a == q * a;
    }
  }

  /** Rounding `x` down to a multiple of `a` loses less than `a`. */
  lemma RoundDown(x: nat, a: int)
    requires a > 0
    ensures x - a < (x / a) * a <= x && x / a >= 0
    ensures ((x / a) * a) % a == 0
  {
    assert x == (x / a) * a + x % a;
    MultipleModZero(x / a, a);
  }

  /**
   * `memapi_align_bsize`: `bsz` rounded up to a multiple of `alignsize`,
   * the smallest such multiple, so it exceeds `bsz` by less than one
   * `alignsize`.
   */
  function AlignBsize(bsz: nat, alignsize: nat): (r: nat)
    requires alignsize > 0 && bsz + alignsize <= UB8_LIMIT
    ensures r >= bsz && r % alignsize == 0 && r - bsz < alignsize
  {
    RoundDown(bsz + alignsize - 1, alignsize);
    ((bsz + alignsize - 1) / alignsize) * alignsize
  }

  /** A multiple of a positive `a` that is below `a` is not positive. */
  lemma ProductBelowDivisor(d: int, a: int)
    requires a > 0 && d * a < a
    ensures d <= 0
  {
    assert (d - 1) * a < 0;
  }

  /** No multiple of `alignsize` lies between `bsz` and its aligned size: it is the least one. */
  lemma AlignBsizeLeast(bsz: nat, alignsize: nat, m: nat)
    requires alignsize > 0 && bsz + alignsize <= UB8_LIMIT
    requires m >= bsz && m % alignsize == 0
    ensures AlignBsize(bsz, alignsize) <= m
  {
    var r := AlignBsize(bsz, alignsize);
    var qm, qr := m / alignsize, r / alignsize;
    assert m == qm * alignsize + m % alignsize;
    assert r == qr * alignsize + r % alignsize;
    var d := qr - qm;
    assert d * alignsize == r - m;
    ProductBelowDivisor(d, alignsize);
    assert qr <= qm;
    assert qr * alignsize <= qm * alignsize;
  }

  /** A size that is already aligned stays as it is, so aligning twice is aligning once. */
  lemma AlignBsizeIdempotent(bsz: nat, alignsize: nat)
    requires alignsize > 0 && bsz + 2 * alignsize <= UB8_LIMIT
    ensures bsz % alignsize == 0 ==> AlignBsize(bsz, alignsize) == bsz
    ensures AlignBsize(AlignBsize(bsz, alignsize), alignsize) == AlignBsize(bsz, alignsize)
  {
    var r := AlignBsize(bsz, alignsize);
    AlignBsizeLeast(r, alignsize, r);
    if bsz % alignsize == 0 {
      AlignBsizeLeast(bsz, alignsize, bsz);
    }
  }

  /** `memapi_align_psize`: a size rounded up to a multiple of the pointer size. */
  function AlignPsize(psz: nat): (r: nat)
    requires psz + SIZEOF_VOID_P <= UB8_LIMIT
    ensures r >= psz && r % SIZEOF_VOID_P == 0 && r - psz < SIZEOF_VOID_P
  {
    AlignBsize(psz, SIZEOF_VOID_P)
  }

  /** Who releases a scratch buffer: nobody for stack memory, `mem_free` for heap memory. */
  datatype Releaser = NoRelease | MemFree

  /** The header `alloca_buf_new` writes in front of the buffer it hands out. */
  datatype AllocaBufHeader = AllocaBufHeader(freebufcb: Releaser, bufsize: nat)

  /**
   * The header of `alloca_buf_new(smallbufsize)`: the size recorded is the
   * requested size aligned to the pointer size; stack memory (when `alloca`
   * is enabled and succeeds) needs no release, heap memory is released with
   * `mem_free`.
   */
  function AllocaBufNew(smallbufsize: nat, onStack: bool): (h: AllocaBufHeader)
    requires smallbufsize + SIZEOF_VOID_P <= UB8_LIMIT
    ensures h.bufsize >= smallbufsize && h.bufsize % SIZEOF_VOID_P == 0 && h.bufsize - smallbufsize < SIZEOF_VOID_P
    ensures h.freebufcb == MemFree <==> !onStack
  {
    AllocaBufHeader(if onStack then NoRelease else MemFree, AlignPsize(smallbufsize))
  }

  /**
   * `mem_strdup`: NULL for NULL, otherwise a new buffer holding the
   * characters of `s` and its terminating NUL.
   */
  method MemStrdup(s: Option<CStr>) returns (d: array?<char>)
    ensures s.None? <==> d == null
    ensures d != null ==> fresh(d) && d[..] == s.value + [NUL] && CString(d[..]) == s.value
  {
    if s.None? {
      return null;
    }
    var bytes := s.value + [NUL];
    d := new char[|bytes|](i => if 0 <= i < |bytes| then bytes[i] else NUL);
    assert d[..] == bytes;
    assert bytes[..|s.value|] == s.value;
  }

  /** A variable holding a pointer, which `mem_free_s` receives by address. */
  class PointerVar {
    var ptr: object?

    constructor(p: object?)
      ensures ptr == p
    {
      ptr := p;
    }
  }

  /**
   * `mem_free_s`: frees what the variable points to and clears the
   * variable; a NULL address or a NULL pointer is left alone. Returns the
   * pointer that was freed, or NULL when nothing was.
   */
  method MemFreeS(pptr: PointerVar?) returns (freed: object?)
    modifies pptr
    ensures pptr != null ==> pptr.ptr == null && freed == old(pptr.ptr)
    ensures pptr == null ==> freed == null
  {
    freed := null;
    if pptr != null {
      var p := pptr.ptr;
      if p != null {
        pptr.ptr := null;
        freed := p;
      }
    }
  }
}
