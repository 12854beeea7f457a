/** `sanitizeFilename` of the policy service
    (backend/internal/service/service.go): the stored name and extension of
    an uploaded file. */
module Filename {
  import opened Text

  /** The index of the last `c` in `path[..n]`, or -1 when there is none. */
  function LastIndex(path: Str, c: char, n: nat): (r: int)
    requires n <= |path|
    ensures -1 <= r < n
    ensures r >= 0 ==> path[r] == c
    ensures forall k :: r < k < n ==> path[k] != c
  {
    if n == 0 then -1 else if path[n - 1] == c then n - 1 else LastIndex(path, c, n - 1)
  }

  /** LastIndex is determined by its contract. */
  lemma LastIndexUnique(path: Str, c: char, n: nat, i: int)
    requires n <= |path|
    requires i == -1 || (0 <= i < n && path[i] == c)
    requires forall k :: i < k < n ==> path[k] != c
    ensures LastIndex(path, c, n) == i
  {
  }

  /** The last path element has no '.': every '.' is followed by a later
      '/', or there is no '.' at all. */
  predicate NoExtension(path: Str) {
    LastIndex(path, '.', |path|) <= LastIndex(path, '/', |path|)
  }

  /** Scans `path[..n]` from the right, as Go's `filepath.Ext` does on a
      '/'-separated path: the first '.' found starts the extension, a '/'
      or the start of the string ends the search with none. */
  function ExtScan(path: Str, n: nat): (ext: Str)
    requires n <= |path|
    ensures |ext| <= |path| && (ext == [] || ext == path[|path| - |ext|..])
    ensures ext == [] <==> LastIndex(path, '.', n) <= LastIndex(path, '/', n)
    ensures ext != [] ==> |path| - |ext| == LastIndex(path, '.', n)
  {
    if n == 0 then []
    else if path[n - 1] == '/' then []
    else if path[n - 1] == '.' then path[n - 1..]
    else ExtScan(path, n - 1)
  }

  /** An extension: empty, or a '.' followed by neither '.' nor '/'. */
  predicate ExtShaped(ext: Str) {
    ext == [] || (ext[0] == '.' && forall k :: 0 < k < |ext| ==> ext[k] != '.' && ext[k] != '/')
  }

  /** Go's `filepath.Ext`: the suffix starting at the last '.' when that
      '.' lies after the last '/', and "" otherwise. */
  function Ext(path: Str): (ext: Str)
    ensures |ext| <= |path| && ext == path[|path| - |ext|..]
    ensures ExtShaped(ext)
    ensures ext == [] <==> NoExtension(path)
    ensures ext != [] ==> |path| - |ext| == LastIndex(path, '.', |path|)
  {
    var ext := ExtScan(path, |path|);
    assert ExtShaped(ext) by {
      if ext != [] {
        var d := LastIndex(path, '.', |path|);
        var sl := LastIndex(path, '/', |path|);
        forall k | 0 < k < |ext| ensures ext[k] != '.' && ext[k] != '/' {
          assert ext[k] == path[d + k];
        }
      }
    }
    ext
  }

  /** The extension of a base followed by an extension-shaped suffix. */
  lemma ExtOfSuffix(b: Str, e: Str)
    requires ExtShaped(e)
    requires e == [] ==> NoExtension(b)
    ensures Ext(b + e) == e
  {
    var x := b + e;
    if e != [] {
      forall k | |b| < k < |x| ensures x[k] != '.' && x[k] != '/' {
        assert x[k] == e[k - |b|];
      }
      LastIndexUnique(x, '.', |x|, |b|);
      var ext := Ext(x);
      assert x[..|x|] == x;
    } else {
      assert x == b;
    }
  }

  /** ASCII lower-casing followed by replacing ' ' with '_'. */
  function LowerUnderscore(t: Str): (r: Str)
    ensures |r| == |t|
    ensures ' ' !in r
    ensures forall i :: 0 <= i < |r| ==> !IsAsciiUpper(r[i])
    ensures forall i :: 0 <= i < |r| ==> (r[i] == '.' <==> t[i] == '.') && (r[i] == '/' <==> t[i] == '/')
  {
    ReplaceChar(ToLowerAscii(t), ' ', '_')
  }

  lemma LowerUnderscoreTrimmed(t: Str)
    requires TrimmedBy(t, GoIsSpace)
    ensures TrimmedBy(LowerUnderscore(t), GoIsSpace)
  {
    if |t| > 0 {
      var l := ToLowerAscii(t);
      assert l[0] == AsciiLower(t[0]) && l[|l| - 1] == AsciiLower(t[|t| - 1]);
    }
  }

  /** `strings.TrimSpace`, ASCII `strings.ToLower`, then spaces to '_'. */
  function CleanBase(s: Str): (r: Str)
    ensures ' ' !in r
    ensures forall i :: 0 <= i < |r| ==> !IsAsciiUpper(r[i])
    ensures TrimmedBy(r, GoIsSpace)
    ensures |r| <= |s|
  {
    var t := GoTrimSpace(s);
    LowerUnderscoreTrimmed(t);
    LowerUnderscore(t)
  }

  /** LastIndex in a slice of `s` whose cut-off parts hold no `c`. */
  lemma LastIndexSlice(s: Str, lo: nat, hi: nat, c: char)
    requires lo <= hi <= |s|
    requires forall k :: 0 <= k < lo ==> s[k] != c
    requires forall k :: hi <= k < |s| ==> s[k] != c
    ensures var r := LastIndex(s, c, |s|);
            LastIndex(s[lo..hi], c, hi - lo) == if r == -1 then -1 else r - lo
  {
    var r := LastIndex(s, c, |s|);
    var t := s[lo..hi];
    if r == -1 {
      LastIndexUnique(t, c, |t|, -1);
    } else {
      assert t[r - lo] == s[r];
      LastIndexUnique(t, c, |t|, r - lo);
    }
  }

  /** What trimming cuts away holds no '.' and no '/'. */
  lemma TrimmedAway(s: Str) returns (lo: nat, hi: nat)
    ensures lo <= hi <= |s| && GoTrimSpace(s) == s[lo..hi]
    ensures forall k :: 0 <= k < lo ==> s[k] != '.' && s[k] != '/'
    ensures forall k :: hi <= k < |s| ==> s[k] != '.' && s[k] != '/'
  {
    lo, hi := TrimBounds(s, GoIsSpace);
  }

  /** Cutting off a prefix and a suffix free of '.' and '/' keeps a name
      without an extension without one. */
  lemma NoExtensionSlice(s: Str, lo: nat, hi: nat)
    requires lo <= hi <= |s| && NoExtension(s)
    requires forall k :: 0 <= k < lo ==> s[k] != '.' && s[k] != '/'
    requires forall k :: hi <= k < |s| ==> s[k] != '.' && s[k] != '/'
    ensures NoExtension(s[lo..hi])
  {
    LastIndexSlice(s, lo, hi, '.');
    LastIndexSlice(s, lo, hi, '/');
    assert |s[lo..hi]| == hi - lo;
  }

  /** Trimming whitespace never cuts a '.' or a '/' away. */
  lemma TrimNoExtension(s: Str)
    requires NoExtension(s)
    ensures NoExtension(GoTrimSpace(s))
  {
    var lo, hi := TrimmedAway(s);
    NoExtensionSlice(s, lo, hi);
  }

  /** Lower-casing, replacing ' ' and trimming never create or move a '.'
      or a '/', so a name without an extension keeps having none. */
  lemma CleanBaseNoExtension(s: Str)
    requires NoExtension(s)
    ensures NoExtension(CleanBase(s))
  {
    TrimNoExtension(s);
    var t := GoTrimSpace(s);
    var r := LowerUnderscore(t);
    LastIndexUnique(r, '.', |r|, LastIndex(t, '.', |t|));
    LastIndexUnique(r, '/', |r|, LastIndex(t, '/', |t|));
  }

  /** A base that is already clean is left alone. */
  lemma CleanBaseOfClean(b: Str)
    requires ' ' !in b
    requires forall i :: 0 <= i < |b| ==> !IsAsciiUpper(b[i])
    requires TrimmedBy(b, GoIsSpace)
    ensures CleanBase(b) == b
  {
    TrimOfTrimmed(b, GoIsSpace);
    ToLowerAsciiOfLower(b);
    ReplaceCharAbsent(b, ' ', '_');
  }

  datatype Sanitized = Sanitized(base: Str, ext: Str)

  /** `sanitizeFilename(filename)`: the extension is cut off verbatim, the
      remaining name is trimmed, lower-cased and has its spaces replaced by
      '_'. */
  function SanitizeFilename(filename: Str): (r: Sanitized)
    ensures ExtShaped(r.ext)
    ensures |r.ext| <= |filename| && r.ext == filename[|filename| - |r.ext|..]
    ensures r.ext == [] <==> NoExtension(filename)
    ensures ' ' !in r.base
    ensures forall i :: 0 <= i < |r.base| ==> !IsAsciiUpper(r.base[i])
    ensures TrimmedBy(r.base, GoIsSpace)
    ensures |r.base| + |r.ext| <= |filename|
  {
    var ext := Ext(filename);
    var stem := filename[..|filename| - |ext|];
    Sanitized(CleanBase(stem), ext)
  }

  /** A clean base followed by an extension is its own sanitised form. */
  lemma SanitizeOfSanitized(b: Str, e: Str)
    requires ExtShaped(e)
    requires e == [] ==> NoExtension(b)
    requires ' ' !in b
    requires forall i :: 0 <= i < |b| ==> !IsAsciiUpper(b[i])
    requires TrimmedBy(b, GoIsSpace)
    ensures SanitizeFilename(b + e) == Sanitized(b, e)
  {
    ExtOfSuffix(b, e);
    var x := b + e;
    assert x[..|x| - |e|] == b;
    CleanBaseOfClean(b);
  }

  /** Without an extension, the sanitised base has none either. */
  lemma SanitizedBaseNoExtension(filename: Str)
    requires NoExtension(filename)
    ensures NoExtension(SanitizeFilename(filename).base)
  {
    assert filename[..|filename| - |Ext(filename)|] == filename;
    CleanBaseNoExtension(filename);
  }

  /** Sanitising the stored name again changes nothing. */
  lemma SanitizeFilenameIdempotent(filename: Str)
    ensures var r := SanitizeFilename(filename);
            SanitizeFilename(r.base + r.ext) == r
  {
    var r := SanitizeFilename(filename);
    if r.ext == [] {
      SanitizedBaseNoExtension(filename);
    }
    SanitizeOfSanitized(r.base, r.ext);
  }
}
