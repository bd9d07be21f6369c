/**
 * String comparison in the `cstr_` family: a NULL-safe, length-aware
 * three-way comparison, an inequality test, and prefix and suffix tests.
 * Strings are their characters (a NULL pointer is `None`); the C library
 * comparisons they build on are defined here by their sign. Where the C
 * code first tests whether its two arguments are the same pointer, the
 * model takes a flag `same` saying so; two NULLs are always the same
 * pointer.
 */
module CStrCompare {
  import opened CTypes

  /** A character as the comparison sees it: folded to lower case when case is ignored. */
  function Fold(c: char, caseignore: bool): (f: char)
    ensures f == NUL <==> c == NUL
  {
    if caseignore then ToLower(c) else c
  }

  /** The character at `i`, or the terminating NUL from the end on. */
  function At(s: CStr, i: nat): char {
    if i < |s| then s[i] else NUL
  }

  /**
   * The sign of `strncmp` (`strncasecmp` when `caseignore`): compares at
   * most `n` characters, stopping after the first difference or at the end
   * of both strings.
   */
  function StrNCmp(a: CStr, b: CStr, n: nat, caseignore: bool): (r: int)
    ensures -1 <= r <= 1
    decreases n
  {
    if n == 0 then 0
    else
      var ca, cb := Fold(At(a, 0), caseignore), Fold(At(b, 0), caseignore);
      if ca != cb then (if ca < cb then -1 else 1)
      else if ca == NUL then 0
      else StrNCmp(a[1..], b[1..], n - 1, caseignore)
  }

  /** The sign of `strcmp` (`strcasecmp`): a comparison that only the strings' ends stop. */
  function StrCmp(a: CStr, b: CStr, caseignore: bool): int {
    StrNCmp(a, b, |a| + |b| + 1, caseignore)
  }

  /** The first `n` characters of `s`, or all of them when it is shorter. */
  function Prefix(s: seq<char>, n: nat): seq<char> {
    if n <= |s| then s[..n] else s
  }

  /** Swapping the operands negates the comparison. */
  lemma {:induction false} StrNCmpAntisymmetric(a: CStr, b: CStr, n: nat, caseignore: bool)
    ensures StrNCmp(a, b, n, caseignore) == -StrNCmp(b, a, n, caseignore)
    decreases n
  {
    if n > 0 && Fold(At(a, 0), caseignore) == Fold(At(b, 0), caseignore) && At(a, 0) != NUL {
      StrNCmpAntisymmetric(a[1..], b[1..], n - 1, caseignore);
    }
  }

  /** Case-sensitive `strncmp` finds no difference exactly when the first `n` characters agree. */
  lemma {:induction false} StrNCmpZeroIffPrefixesEqual(a: CStr, b: CStr, n: nat)
    ensures StrNCmp(a, b, n, false) == 0 <==> Prefix(a, n) == Prefix(b, n)
    decreases n
  {
    if n > 0 && |a| > 0 && |b| > 0 && a[0] == b[0] {
      StrNCmpZeroIffPrefixesEqual(a[1..], b[1..], n - 1);
      assert Prefix(a, n) == [a[0]] + Prefix(a[1..], n - 1);
      assert Prefix(b, n) == [b[0]] + Prefix(b[1..], n - 1);
      assert a[0] != NUL;
      assert StrNCmp(a, b, n, false) == StrNCmp(a[1..], b[1..], n - 1, false);
      if Prefix(a, n) == Prefix(b, n) {
        assert Prefix(a[1..], n - 1) == Prefix(a, n)[1..];
        assert Prefix(b[1..], n - 1) == Prefix(b, n)[1..];
      }
    } else if n > 0 && |a| > 0 && |b| > 0 {
      assert Prefix(a, n)[0] != Prefix(b, n)[0];
    } else if n > 0 && |a| > 0 {
      assert Prefix(b, n) == [];
    } else if n > 0 && |b| > 0 {
      assert Prefix(a, n) == [];
    }
  }

  /** `strcmp` reports equality exactly for equal strings. */
  lemma StrCmpZeroIffEqual(a: CStr, b: CStr)
    ensures StrCmp(a, b, false) == 0 <==> a == b
  {
    StrNCmpZeroIffPrefixesEqual(a, b, |a| + |b| + 1);
  }

  /** `a` and `b` agree, once folded, on their first `k` characters, none of which ends `a`. */
  predicate AgreeBefore(a: CStr, b: CStr, k: nat, caseignore: bool) {
    forall j :: 0 <= j < k ==> Fold(At(a, j), caseignore) == Fold(At(b, j), caseignore) && At(a, j) != NUL
  }

  /** `a` sorts before `b` at index `k`: they agree before it and `a` has the smaller folded character there. */
  predicate LessAt(a: CStr, b: CStr, k: nat, caseignore: bool) {
    AgreeBefore(a, b, k, caseignore) && Fold(At(a, k), caseignore) < Fold(At(b, k), caseignore)
  }

  /** Dropping a common first character shifts where the two strings first differ. */
  lemma LessAtShift(a: CStr, b: CStr, k: nat, caseignore: bool)
    requires |a| > 0 && |b| > 0 && a[0] != NUL && Fold(a[0], caseignore) == Fold(b[0], caseignore)
    ensures LessAt(a, b, k + 1, caseignore) <==> LessAt(a[1..], b[1..], k, caseignore)
  {
    assert forall j :: 0 <= j ==> At(a[1..], j) == At(a, j + 1) && At(b[1..], j) == At(b, j + 1);
    if AgreeBefore(a[1..], b[1..], k, caseignore) {
      forall j | 0 <= j < k + 1
        ensures Fold(At(a, j), caseignore) == Fold(At(b, j), caseignore) && At(a, j) != NUL
      {
        if j > 0 {
          assert At(a, j) == At(a[1..], j - 1) && At(b, j) == At(b[1..], j - 1);
        }
      }
    }
    if AgreeBefore(a, b, k + 1, caseignore) {
      forall j | 0 <= j < k
        ensures Fold(At(a[1..], j), caseignore) == Fold(At(b[1..], j), caseignore) && At(a[1..], j) != NUL
      {
        assert At(a[1..], j) == At(a, j + 1) && At(b[1..], j) == At(b, j + 1);
      }
    }
  }

  /**
   * `strncmp` (`strncasecmp`) is negative exactly when, within `n`
   * characters, the first folded character that differs is smaller in `a`.
   */
  lemma {:induction false} StrNCmpLessIff(a: CStr, b: CStr, n: nat, caseignore: bool)
    ensures StrNCmp(a, b, n, caseignore) == -1 <==> exists k :: 0 <= k < n && LessAt(a, b, k, caseignore)
    decreases n
  {
    if n == 0 {
      return;
    }
    var ca, cb := Fold(At(a, 0), caseignore), Fold(At(b, 0), caseignore);
    if ca < cb {
      assert LessAt(a, b, 0, caseignore);
    } else if ca != cb || ca == NUL {
      forall k | 0 <= k < n
        ensures !LessAt(a, b, k, caseignore)
      {
        if k > 0 {
          assert !(Fold(At(a, 0), caseignore) == Fold(At(b, 0), caseignore) && At(a, 0) != NUL);
        }
      }
    } else {
      StrNCmpLessIff(a[1..], b[1..], n - 1, caseignore);
      assert !LessAt(a, b, 0, caseignore);
      if exists k :: 0 <= k < n - 1 && LessAt(a[1..], b[1..], k, caseignore) {
        var k :| 0 <= k < n - 1 && LessAt(a[1..], b[1..], k, caseignore);
        LessAtShift(a, b, k, caseignore);
      }
      if exists k :: 0 <= k < n && LessAt(a, b, k, caseignore) {
        var k :| 0 <= k < n && LessAt(a, b, k, caseignore);
        LessAtShift(a, b, k - 1, caseignore);
      }
    }
  }

  /** `strncmp` is positive exactly when the first folded character that differs is greater in `a`. */
  lemma StrNCmpGreaterIff(a: CStr, b: CStr, n: nat, caseignore: bool)
    ensures StrNCmp(a, b, n, caseignore) == 1 <==> exists k :: 0 <= k < n && LessAt(b, a, k, caseignore)
  {
    StrNCmpAntisymmetric(a, b, n, caseignore);
    StrNCmpLessIff(b, a, n, caseignore);
  }

  /** `s` with each character folded as the comparison folds it. */
  function Folded(s: seq<char>, caseignore: bool): (r: seq<char>)
    ensures |r| == |s| && forall i :: 0 <= i < |s| ==> r[i] == Fold(s[i], caseignore)
  {
    seq(|s|, i requires 0 <= i < |s| => Fold(s[i], caseignore))
  }

  /** The folded prefix of a non-empty string is its folded first character and the folded rest. */
  lemma FoldedPrefixCons(a: CStr, n: nat, caseignore: bool)
    requires n > 0 && |a| > 0
    ensures Folded(Prefix(a, n), caseignore) == [Fold(a[0], caseignore)] + Folded(Prefix(a[1..], n - 1), caseignore)
  {
    assert Prefix(a, n) == [a[0]] + Prefix(a[1..], n - 1);
  }

  /**
   * `strncmp` (`strncasecmp`) finds no difference exactly when the first
   * `n` characters of both strings agree once folded.
   */
  lemma {:induction false} StrNCmpZeroIffFoldedEqual(a: CStr, b: CStr, n: nat, caseignore: bool)
    ensures StrNCmp(a, b, n, caseignore) == 0 <==> Folded(Prefix(a, n), caseignore) == Folded(Prefix(b, n), caseignore)
    decreases n
  {
    var fa, fb := Folded(Prefix(a, n), caseignore), Folded(Prefix(b, n), caseignore);
    if n > 0 && |a| > 0 && |b| > 0 && Fold(a[0], caseignore) == Fold(b[0], caseignore) {
      StrNCmpZeroIffFoldedEqual(a[1..], b[1..], n - 1, caseignore);
      FoldedPrefixCons(a, n, caseignore);
      FoldedPrefixCons(b, n, caseignore);
      assert a[0] != NUL;
    } else if n > 0 && |a| > 0 && |b| > 0 {
      assert fa[0] != fb[0];
    } else if n > 0 && |a| > 0 {
      assert fb == [] && a[0] != NUL;
    } else if n > 0 && |b| > 0 {
      assert fa == [] && b[0] != NUL;
    }
  }

  /**
   * `cstr_compare_len`: -1, 0 or 1 as A is less than, equal to or greater
   * than B. The same pointer (`same`, or two NULLs) is equal to itself
   * whatever the lengths; otherwise a NULL string is less than any other;
   * two zero lengths are equal; two negative lengths compare the whole
   * strings as `strcmp` does; otherwise a negative length stands for the
   * string's own length, the shorter string is the lesser, and strings of
   * equal length compare their characters.
   */
  function CompareLen(A: Option<CStr>, Alen: int, B: Option<CStr>, Blen: int, caseignore: bool, same: bool): (r: int)
    requires same ==> A == B
    ensures -1 <= r <= 1
    ensures same || (A.None? && B.None?) ==> r == 0
    ensures A.None? && B.Some? ==> r == -1
    ensures A.Some? && B.None? ==> r == 1
    ensures A.Some? && B.Some? && Alen == 0 && Blen == 0 ==> r == 0
    ensures A.Some? && B.Some? && !same && (Alen >= 0 || Blen >= 0) ==>
      var al, bl := (if Alen < 0 then |A.value| else Alen), (if Blen < 0 then |B.value| else Blen);
      (al < bl ==> r == -1) && (al > bl ==> r == 1)
  {
    if same || (A.None? && B.None?) then 0
    else if A.None? then -1
    else if B.None? then 1
    else if Alen == 0 && Blen == 0 then 0
    else if Alen < 0 && Blen < 0 then StrCmp(A.value, B.value, caseignore)
    else
      var al := if Alen < 0 then |A.value| else Alen;
      var bl := if Blen < 0 then |B.value| else Blen;
      if al > bl then 1
      else if al < bl then -1
      else StrNCmp(A.value, B.value, al, caseignore)
  }

  /** The comparison is antisymmetric: swapping A and B negates it. */
  lemma CompareLenAntisymmetric(A: Option<CStr>, Alen: int, B: Option<CStr>, Blen: int, caseignore: bool, same: bool)
    requires same ==> A == B
    ensures CompareLen(A, Alen, B, Blen, caseignore, same) == -CompareLen(B, Blen, A, Alen, caseignore, same)
  {
    if A.Some? && B.Some? {
      StrNCmpAntisymmetric(A.value, B.value, |A.value| + |B.value| + 1, caseignore);
      assert StrCmp(B.value, A.value, caseignore) == StrNCmp(B.value, A.value, |A.value| + |B.value| + 1, caseignore);
      if Alen == Blen && Alen > 0 {
        StrNCmpAntisymmetric(A.value, B.value, Alen, caseignore);
      } else if Alen < 0 && Blen >= 0 && |A.value| == Blen {
        StrNCmpAntisymmetric(A.value, B.value, Blen, caseignore);
      } else if Blen < 0 && Alen >= 0 && |B.value| == Alen {
        StrNCmpAntisymmetric(A.value, B.value, Alen, caseignore);
      }
    }
  }

  /**
   * Two strings compared over the same length, or both as a whole: the
   * result is -1 or 1 exactly when the first folded character that differs
   * (within the length) is smaller or greater in A, and 0 exactly when
   * their folded prefixes of that length agree; as a whole, when the
   * folded strings are equal.
   */
  lemma CompareLenOrder(a: CStr, Alen: int, b: CStr, Blen: int, caseignore: bool)
    requires Alen == Blen || (Alen < 0 && Blen < 0)
    ensures var n := if Alen < 0 then |a| + |b| + 1 else Alen;
      var r := CompareLen(Some(a), Alen, Some(b), Blen, caseignore, false);
      && (r == -1 <==> exists k :: 0 <= k < n && LessAt(a, b, k, caseignore))
      && (r == 1 <==> exists k :: 0 <= k < n && LessAt(b, a, k, caseignore))
      && (r == 0 <==> Folded(Prefix(a, n), caseignore) == Folded(Prefix(b, n), caseignore))
    ensures Alen < 0 ==>
      (CompareLen(Some(a), Alen, Some(b), Blen, caseignore, false) == 0 <==> Folded(a, caseignore) == Folded(b, caseignore))
  {
    var n := if Alen < 0 then |a| + |b| + 1 else Alen;
    StrNCmpLessIff(a, b, n, caseignore);
    StrNCmpGreaterIff(a, b, n, caseignore);
    StrNCmpZeroIffFoldedEqual(a, b, n, caseignore);
    if Alen == 0 {
      assert Prefix(a, n) == [] == Prefix(b, n);
    }
  }

  /**
   * The pointer test matters only for lengths that differ: the same string
   * over equal lengths compares equal on its contents too, while over
   * different lengths the contents would say the shorter is less.
   */
  lemma CompareLenSamePointer(a: CStr, Alen: int, Blen: int, caseignore: bool)
    ensures Alen == Blen ==>
      CompareLen(Some(a), Alen, Some(a), Blen, caseignore, false) == CompareLen(Some(a), Alen, Some(a), Blen, caseignore, true) == 0
    ensures 0 <= Alen < Blen ==> CompareLen(Some(a), Alen, Some(a), Blen, caseignore, false) == -1
  {
    if Alen == Blen {
      var n := if Alen < 0 then |a| + |a| + 1 else Alen;
      StrNCmpZeroIffFoldedEqual(a, a, n, caseignore);
    }
  }

  /** `cstr_compare_len("abcde", 3, "abcde", 5, 0)` on one pointer is 0, and -1 on two copies. */
  lemma CompareLenSamePointerExample()
    ensures CompareLen(Some("abcde"), 3, Some("abcde"), 5, false, true) == 0
    ensures CompareLen(Some("abcde"), 3, Some("abcde"), 5, false, false) == -1
  {
  }

  /** Two whole strings (lengths -1) compare equal exactly when they are equal or both NULL. */
  lemma CompareWholeStrings(A: Option<CStr>, B: Option<CStr>, same: bool)
    requires same ==> A == B
    ensures CompareLen(A, -1, B, -1, false, same) == 0 <==> A == B
  {
    if A.Some? && B.Some? {
      StrCmpZeroIffEqual(A.value, B.value);
    }
  }

  /**
   * `cstr_notequal_len`: different lengths differ; the same pointer (two
   * NULLs included) is not unequal to itself; two strings differ when
   * `strncmp` over the length finds a difference (a negative length,
   * converted to an enormous count, compares the whole strings); a NULL
   * and a string differ. Its own pointer test is left to the contents:
   * over equal lengths they give the same answer (`NotEqualLenReflexive`).
   */
  function NotEqualLen(A: Option<CStr>, Alen: int, B: Option<CStr>, Blen: int): (r: bool)
    ensures Alen != Blen ==> r
    ensures A.None? && B.None? ==> r == (Alen != Blen)
    ensures A.None? != B.None? ==> r
  {
    if Alen != Blen then true
    else if A.None? && B.None? then false
    else if A.Some? && B.Some? then
      (if Alen < 0 then StrCmp(A.value, B.value, false) else StrNCmp(A.value, B.value, Alen, false)) != 0
    else true
  }

  /** A string is never unequal to itself over one length, which is what the pointer test answers. */
  lemma NotEqualLenReflexive(A: Option<CStr>, n: int)
    ensures !NotEqualLen(A, n, A, n)
  {
    if A.Some? {
      StrCmpZeroIffEqual(A.value, A.value);
      if n >= 0 {
        StrNCmpZeroIffPrefixesEqual(A.value, A.value, n);
      }
    }
  }

  /** For equal lengths the inequality test agrees with the three-way comparison. */
  lemma NotEqualAgreesWithCompare(A: Option<CStr>, B: Option<CStr>, n: int, same: bool)
    requires same ==> A == B
    ensures NotEqualLen(A, n, B, n) <==> CompareLen(A, n, B, n, false, same) != 0
  {
    if same {
      NotEqualLenReflexive(A, n);
    }
  }

  /** The bytes `memcmp` may see: the characters and the terminating NUL. */
  function Bytes(s: CStr): seq<char> {
    s + [NUL]
  }

  /**
   * `cstr_startwith`: the same pointer (two NULLs included) starts with
   * itself; otherwise whether the first `startlen` bytes of `str` are those
   * of `start`, provided `startlen` does not exceed `count`; one NULL
   * matches nothing.
   */
  function StartWith(str: Option<CStr>, count: int, start: Option<CStr>, startlen: int, same: bool): (r: bool)
    requires same ==> str == start
    requires str.Some? && start.Some? && startlen <= count ==>
      0 <= startlen <= |str.value| + 1 && startlen <= |start.value| + 1
    ensures same || (str.None? && start.None?) ==> r
    ensures str.None? != start.None? ==> !r
    ensures str.Some? && start.Some? && !same ==>
      (r <==> startlen <= count && Bytes(str.value)[..startlen] == Bytes(start.value)[..startlen])
  {
    if same || (str.None? && start.None?) then true
    else if str.Some? && start.Some? && startlen <= count then
      Bytes(str.value)[..startlen] == Bytes(start.value)[..startlen]
    else false
  }

  /** A string within its length starts with the first characters of itself, and with nothing longer than `count`. */
  lemma StartWithMeaning(str: CStr, count: int, start: CStr, same: bool)
    requires same ==> str == start
    requires 0 <= |start| <= count && |start| <= |str|
    ensures StartWith(Some(str), count, Some(start), |start|, same) <==> str[..|start|] == start
  {
    assert Bytes(str)[..|start|] == str[..|start|];
    assert Bytes(start)[..|start|] == start;
  }

  /** The examples documented with `cstr_startwith`. */
  lemma StartWithExamples()
    ensures StartWith(Some("HelloWorld"), 10, Some("Hello"), 5, false)
    ensures !StartWith(Some("HelloWorld"), 10, Some("World"), 5, false)
    ensures !StartWith(Some("HelloWorld"), 10, Some("hello"), 5, false)
  {
    StartWithMeaning("HelloWorld", 10, "Hello", false);
    StartWithMeaning("HelloWorld", 10, "World", false);
    StartWithMeaning("HelloWorld", 10, "hello", false);
    assert "HelloWorld"[..5] == "Hello";
  }

  /**
   * `cstr_endwith`: the same pointer (two NULLs included) ends with itself;
   * otherwise whether the string at `str[count - endlen]` and `end` are not
   * unequal over `endlen` characters, provided `endlen` does not exceed
   * `count`; one NULL matches nothing.
   */
  function EndWith(str: Option<CStr>, count: int, end: Option<CStr>, endlen: int, same: bool): (r: bool)
    requires same ==> str == end
    requires str.Some? && end.Some? && endlen <= count ==> 0 <= count - endlen <= |str.value|
    ensures same || (str.None? && end.None?) ==> r
    ensures str.None? != end.None? ==> !r
    ensures str.Some? && end.Some? && !same && endlen > count ==> !r
  {
    if same || (str.None? && end.None?) then true
    else if str.Some? && end.Some? && endlen <= count then
      !NotEqualLen(Some(str.value[count - endlen..]), endlen, end, endlen)
    else false
  }

  /** A string given as its own suffix always matches, even where its contents would not. */
  lemma EndWithSamePointerExample()
    ensures EndWith(Some("abc"), 3, Some("abc"), 1, true)
    ensures !EndWith(Some("abc"), 3, Some("abc"), 1, false)
  {
    assert StrNCmp("c", "abc", 1, false) == 1;
  }

  /**
   * For a count within the string and a non-negative `endlen`, `str` ends
   * (at `count`) with `end` exactly when its last `endlen` characters before
   * `count` are the whole of `end`'s first `endlen` characters.
   */
  lemma EndWithMeaning(str: CStr, count: int, end: CStr, endlen: int)
    requires 0 <= endlen <= count <= |str|
    ensures EndWith(Some(str), count, Some(end), endlen, false) <==>
      endlen <= |end| && str[count - endlen..count] == end[..endlen]
  {
    var tail := str[count - endlen..];
    StrNCmpZeroIffPrefixesEqual(tail, end, endlen);
    assert Prefix(tail, endlen) == str[count - endlen..count];
    if endlen > |end| {
      assert Prefix(end, endlen) == end;
      assert |Prefix(tail, endlen)| != |Prefix(end, endlen)|;
    }
  }
}
