/**
 * The string work of the path helpers: where `find_config_pathfile` puts
 * the configuration file name when a configuration path is given, and how
 * `get_proc_abspath` cuts the executable's path back to its directory.
 * The platform's `PATH_SEPARATOR_CHAR` is a parameter: `'\\'` on Windows,
 * `'/'` elsewhere.
 */
module Paths {
  import opened CTypes
  import CStrCompare
  import CStrBuffer

  predicate IsSeparatorChar(sep: char) {
    sep == '\\' || sep == '/'
  }

  /** Whether `s` ends with `suffix`. */
  predicate EndsWith(s: seq<char>, suffix: seq<char>) {
    |suffix| <= |s| && s[|s| - |suffix|..] == suffix
  }

  /** `cstr_endwith` over a whole string and a whole suffix is the plain suffix test. */
  lemma EndWithWhole(s: CStr, suffix: CStr)
    ensures |suffix| <= |s| ==>
      (CStrCompare.EndWith(Some(s), |s|, Some(suffix), |suffix|, false) <==> EndsWith(s, suffix))
    ensures |suffix| > |s| ==> !CStrCompare.EndWith(Some(s), |s|, Some(suffix), |suffix|, false)
  {
    if |suffix| <= |s| {
      CStrCompare.EndWithMeaning(s, |s|, suffix, |suffix|);
      assert suffix[..|suffix|] == suffix;
      assert s[|s| - |suffix|..|s|] == s[|s| - |suffix|..];
    }
  }

  /**
   * `find_config_pathfile` with `cfgpath` given: a path already ending in
   * the separator and the name (or in `/` and the name) is kept; a path
   * ending in a separator or `/` gets the name appended; any other path
   * gets the separator and the name. The suffix tests are `cstr_endwith`.
   */
  function ConfigPathFile(cfgpath: CStr, cfgname: CStr, sep: char): (config: CStr)
    requires |cfgpath| > 0 && IsSeparatorChar(sep) && sep != NUL
    ensures EndsWith(cfgpath, [sep] + cfgname) || EndsWith(cfgpath, "/" + cfgname) ==> config == cfgpath
    ensures !EndsWith(cfgpath, [sep] + cfgname) && !EndsWith(cfgpath, "/" + cfgname) ==>
      config == cfgpath + (if cfgpath[|cfgpath| - 1] == sep || cfgpath[|cfgpath| - 1] == '/' then [] else [sep]) + cfgname
  {
    var pname: CStr := [sep] + cfgname;
    var tname: CStr := "/" + cfgname;
    EndWithWhole(cfgpath, pname);
    EndWithWhole(cfgpath, tname);
    if CStrCompare.EndWith(Some(cfgpath), |cfgpath|, Some(pname), |pname|, false)
       || CStrCompare.EndWith(Some(cfgpath), |cfgpath|, Some(tname), |tname|, false) then
      cfgpath
    else
      var endchr := cfgpath[|cfgpath| - 1];
      if endchr == sep || endchr == '/' then cfgpath + cfgname
      else cfgpath + [sep] + cfgname
  }

  /** The result always names the file: it ends in a separator (or `/`) followed by `cfgname`. */
  lemma ConfigPathEndsWithName(cfgpath: CStr, cfgname: CStr, sep: char)
    requires |cfgpath| > 0 && IsSeparatorChar(sep) && sep != NUL
    ensures var config := ConfigPathFile(cfgpath, cfgname, sep);
      EndsWith(config, [sep] + cfgname) || EndsWith(config, "/" + cfgname)
  {
    var config := ConfigPathFile(cfgpath, cfgname, sep);
    if !EndsWith(cfgpath, [sep] + cfgname) && !EndsWith(cfgpath, "/" + cfgname) {
      var endchr := cfgpath[|cfgpath| - 1];
      if endchr == sep || endchr == '/' {
        assert config[|config| - |cfgname| - 1..] == [endchr] + cfgname;
      } else {
        assert config[|config| - |cfgname| - 1..] == [sep] + cfgname;
      }
    }
  }

  /** Completing a configuration path twice gives what completing it once gives. */
  lemma ConfigPathIdempotent(cfgpath: CStr, cfgname: CStr, sep: char)
    requires |cfgpath| > 0 && IsSeparatorChar(sep) && sep != NUL
    ensures ConfigPathFile(ConfigPathFile(cfgpath, cfgname, sep), cfgname, sep) == ConfigPathFile(cfgpath, cfgname, sep)
  {
    ConfigPathEndsWithName(cfgpath, cfgname, sep);
  }

  /** The examples: a directory with or without a trailing separator, and a path that already names the file. */
  lemma ConfigPathExamples()
    ensures ConfigPathFile("/etc", "app.cfg", '/') == "/etc/app.cfg"
    ensures ConfigPathFile("/etc/", "app.cfg", '/') == "/etc/app.cfg"
    ensures ConfigPathFile("/etc/app.cfg", "app.cfg", '/') == "/etc/app.cfg"
  {
    assert !EndsWith("/etc", "/app.cfg");
    assert !EndsWith("/etc/", "/app.cfg");
    assert "/etc/app.cfg"[12 - 8..] == "/app.cfg";
  }

  /** The index of the last `c` in `s` (`strrchr`), if there is one. */
  function LastIndexOf(s: seq<char>, c: char): (r: Option<nat>)
    ensures r.None? <==> c !in s
    ensures r.Some? ==> r.value < |s| && s[r.value] == c && c !in s[r.value + 1..]
  {
    if |s| == 0 then None
    else if s[|s| - 1] == c then Some(|s| - 1)
    else
      var r := LastIndexOf(s[..|s| - 1], c);
      assert s[..|s| - 1] + [s[|s| - 1]] == s;
      if r.Some? then
        assert s[r.value + 1..] == s[..|s| - 1][r.value + 1..] + [s[|s| - 1]];
        r
      else r
  }

  /**
   * Where `get_proc_abspath` cuts the path: at whichever of the last `\\`
   * and the last `/` comes later, or nowhere when there is neither.
   */
  function CutPoint(path: seq<char>): (k: nat)
    ensures k <= |path|
    ensures k < |path| ==> IsSeparatorChar(path[k]) && forall i :: k < i < |path| ==> !IsSeparatorChar(path[i])
    ensures k == |path| ==> forall i :: 0 <= i < |path| ==> !IsSeparatorChar(path[i])
  {
    var p := LastIndexOf(path, '\\');
    var q := LastIndexOf(path, '/');
    if p.Some? && q.Some? then
      (if p.value > q.value then p.value else q.value)
    else if p.Some? then p.value
    else if q.Some? then q.value
    else |path|
  }

  /** A path is its directory part, then (when it has one) a separator and a last part without any. */
  lemma CutSplitsPath(path: seq<char>)
    ensures var k := CutPoint(path);
      k < |path| ==>
        (&& path == path[..k] + [path[k]] + path[k + 1..] && IsSeparatorChar(path[k])
         && forall c :: c in path[k + 1..] ==> !IsSeparatorChar(c))
  {
    var k := CutPoint(path);
    if k < |path| {
      assert path == path[..k] + [path[k]] + path[k + 1..];
      forall c | c in path[k + 1..]
        ensures !IsSeparatorChar(c)
      {
        var i :| 0 <= i < |path[k + 1..]| && path[k + 1..][i] == c;
        assert path[k + 1 + i] == c;
      }
    }
  }

  /** `strnlen`: the index of the first NUL among the first `n` characters, or `n`. */
  function StrNLen(s: seq<char>, n: nat): (r: nat)
    requires n <= |s|
    ensures r <= n && NUL !in s[..r]
    ensures r < n ==> s[r] == NUL
  {
    if n == 0 || s[0] == NUL then 0
    else
      var r := StrNLen(s[1..], n - 1);
      assert s[..r + 1] == [s[0]] + s[1..][..r];
      r + 1
  }

  /**
   * The cut step of `get_proc_abspath`: writes a NUL over the later of the
   * last `\\` and the last `/` of the path and recounts its length with
   * `strnlen`, so the buffer holds the directory part.
   */
  method CutAtLastSeparator(pathfile: CStrBuffer.CStrBuf)
    requires pathfile.Valid() && pathfile.Terminated() && NUL !in pathfile.Contents()
    modifies pathfile, pathfile.str
    ensures pathfile.Valid() && pathfile.Terminated()
    ensures pathfile.str == old(pathfile.str) && pathfile.maxsz == old(pathfile.maxsz)
    ensures pathfile.Contents() == old(pathfile.Contents())[..CutPoint(old(pathfile.Contents()))]
  {
    var path := pathfile.str[..pathfile.len];
    var k := CutPoint(path);
    if k < pathfile.len {
      pathfile.str[k] := NUL;
    }
    assert pathfile.str[..k] == path[..k];
    pathfile.len := StrNLen(pathfile.str[..], pathfile.len);
    assert pathfile.len == k;
  }
}
