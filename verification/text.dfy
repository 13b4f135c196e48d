/** The few string operations of Python's standard library that the handlers
    apply to form fields and uploaded file names: `str.strip`, `str.lower`
    (on the characters that matter here), `os.path.splitext` and `str.join`. */
module Text {

  /** The characters for which Python's `str.isspace()` holds, which are the
      ones a bare `str.strip()` removes. */
  predicate IsSpace(c: char) {
    || ('\t' <= c <= '\r')
    || ('\U{001C}' <= c <= '\U{001F}')
    || c == ' ' || c == '\U{0085}' || c == '\U{00A0}' || c == '\U{1680}'
    || ('\U{2000}' <= c <= '\U{200A}')
    || c == '\U{2028}' || c == '\U{2029}' || c == '\U{202F}' || c == '\U{205F}' || c == '\U{3000}'
  }

  /** Every character of `s` is white space (vacuously so for ""). */
  predicate Blank(s: string) {
    forall i | 0 <= i < |s| :: IsSpace(s[i])
  }

  /** Python's `str.lstrip()`: the suffix left after dropping leading white space. */
  function TrimLeft(s: string): (r: string)
    ensures |r| <= |s| && r == s[|s| - |r|..]
    ensures Blank(s[..|s| - |r|])
    ensures r == [] || !IsSpace(r[0])
  {
    if |s| > 0 && IsSpace(s[0]) then
      var r := TrimLeft(s[1..]);
      assert s[1..][..|s| - 1 - |r|] == s[1..|s| - |r|];
      r
    else s
  }

  /** Python's `str.rstrip()`: the prefix left after dropping trailing white space. */
  function TrimRight(s: string): (r: string)
    ensures |r| <= |s| && r == s[..|r|]
    ensures Blank(s[|r|..])
    ensures r == [] || !IsSpace(r[|r| - 1])
  {
    if |s| > 0 && IsSpace(s[|s| - 1]) then
      var r := TrimRight(s[..|s| - 1]);
      assert s[..|s| - 1][|r|..] + [s[|s| - 1]] == s[|r|..];
      r
    else s
  }

  /** Python's `str.strip()`: `s` minus its white-space border. The result is a
      slice of `s`, everything cut away is white space, and the result neither
      starts nor ends with white space. */
  function Strip(s: string): (r: string)
    ensures exists i | 0 <= i <= |s| - |r| :: r == s[i..i + |r|] && Blank(s[..i]) && Blank(s[i + |r|..])
    ensures r == [] || (!IsSpace(r[0]) && !IsSpace(r[|r| - 1]))
  {
    var l := TrimLeft(s);
    var r := TrimRight(l);
    TrimsAreSlice(s, l, r, |s| - |l|);
    r
  }

  /** The right trim of the left trim of `s` is the slice of `s` that starts
      where the left trim does, with white space on both sides. */
  lemma TrimsAreSlice(s: string, l: string, r: string, i: int)
    requires 0 <= i <= |s| && l == s[i..] && Blank(s[..i])
    requires |r| <= |l| && r == l[..|r|] && Blank(l[|r|..])
    ensures i <= |s| - |r| && r == s[i..i + |r|] && Blank(s[i + |r|..])
  {
    SliceOfSuffix(s, l, r, i);
  }

  /** A prefix `r` of the suffix `l` of `s` from `i` is the slice of `s`
      from `i`, and what follows it in `l` is what follows it in `s`. */
  lemma SliceOfSuffix(s: string, l: string, r: string, i: int)
    requires 0 <= i <= |s| && l == s[i..] && |r| <= |l| && r == l[..|r|]
    ensures r == s[i..i + |r|] && l[|r|..] == s[i + |r|..]
  {
  }

  /** The left trim is empty exactly when the text is all white space. */
  lemma TrimLeftEmptyIffBlank(s: string)
    ensures TrimLeft(s) == [] <==> Blank(s)
  {
    var l := TrimLeft(s);
    if l == [] {
      assert s[..|s|] == s;
    } else {
      assert l[0] == s[|s| - |l|];
    }
  }

  /** `not s.strip()` in Python: the stripped text is empty exactly when
      every character of `s` is white space. */
  lemma StripEmptyIffBlank(s: string)
    ensures Strip(s) == [] <==> Blank(s)
  {
    var l := TrimLeft(s);
    TrimLeftEmptyIffBlank(s);
    if l != [] {
      assert l[0..] == l;
    }
  }

  /** Stripping twice is stripping once. */
  lemma StripIdempotent(s: string)
    ensures Strip(Strip(s)) == Strip(s)
  {
    var r := Strip(s);
    assert TrimLeft(r) == r;
    assert TrimRight(r) == r;
  }

  /** Lower-cases an ASCII capital letter and leaves every other character alone. */
  function LowerChar(c: char): (d: char)
    ensures 'A' <= c <= 'Z' ==> 'a' <= d <= 'z' && d as int - c as int == 32
    ensures !('A' <= c <= 'Z') ==> d == c
  {
    if 'A' <= c <= 'Z' then (c as int + 32) as char else c
  }

  /** Python's `str.lower()` restricted to ASCII letters. */
  function Lower(s: string): (r: string)
    ensures |r| == |s| && forall i | 0 <= i < |s| :: r[i] == LowerChar(s[i])
  {
    seq(|s|, i requires 0 <= i < |s| => LowerChar(s[i]))
  }

  /** The position of the last `c` in `s`, or -1 (Python's `str.rfind`). */
  function LastIndex(s: string, c: char): (i: int)
    ensures -1 <= i < |s|
    ensures i >= 0 ==> s[i] == c
    ensures forall j | i < j < |s| :: s[j] != c
  {
    if |s| == 0 then -1
    else if s[|s| - 1] == c then |s| - 1
    else LastIndex(s[..|s| - 1], c)
  }

  /** `str.rfind` is pinned down by its contract: the one position of `c`
      with no `c` after it, or -1 when `c` does not occur. */
  lemma LastIndexIs(s: string, c: char, i: int)
    requires -1 <= i < |s| && (i >= 0 ==> s[i] == c)
    requires forall j | i < j < |s| :: s[j] != c
    ensures LastIndex(s, c) == i
  {
  }

  /** Some character of `s` is not a dot. */
  predicate HasNonDot(s: string) {
    exists i | 0 <= i < |s| :: s[i] != '.'
  }

  /** `e` has the shape of an extension `os.path.splitext` returns: empty, or
      a dot followed by characters that are neither dots nor slashes. */
  predicate IsExt(e: string) {
    |e| > 0 ==> e[0] == '.' && forall j | 1 <= j < |e| :: e[j] != '.' && e[j] != '/'
  }

  /** The suffix of `p` from its last dot, which comes after its last slash. */
  function ExtFrom(p: string, dot: int): (e: string)
    requires 0 <= dot < |p| && p[dot] == '.'
    requires forall j | dot < j < |p| :: p[j] != '.' && p[j] != '/'
    ensures IsExt(e) && p[..dot] + e == p
  {
    var e := p[dot..];
    assert forall j | 1 <= j < |e| :: e[j] == p[dot + j];
    e
  }

  /** Python's `os.path.splitext` on a POSIX path: splits at the last dot of
      the final path component, unless everything before that dot in the
      component is dots (so ".pdf" has no extension). */
  function SplitExt(p: string): (r: (string, string))
    ensures r.0 + r.1 == p && IsExt(r.1)
  {
    var sep := LastIndex(p, '/');
    var dot := LastIndex(p, '.');
    if dot > sep && HasNonDot(p[sep + 1..dot]) then (p[..dot], ExtFrom(p, dot))
    else (p, "")
  }

  /** In a stem without slashes followed by one extension, the last dot is
      where the extension starts and there is no slash. */
  lemma NameIndices(stem: string, ext: string)
    requires forall j | 0 <= j < |stem| :: stem[j] != '/'
    requires |ext| > 0 && ext[0] == '.' && forall j | 1 <= j < |ext| :: ext[j] != '.' && ext[j] != '/'
    ensures LastIndex(stem + ext, '/') == -1 && LastIndex(stem + ext, '.') == |stem|
  {
    var p := stem + ext;
    forall j | 0 <= j < |p| ensures p[j] != '/' && (j > |stem| ==> p[j] != '.') {
      if j < |stem| { assert p[j] == stem[j]; } else { assert p[j] == ext[j - |stem|]; }
    }
    LastIndexIs(p, '/', -1);
    LastIndexIs(p, '.', |stem|);
  }

  /** A file name made of a stem without slashes that is not all dots,
      followed by one extension, splits into exactly those two parts. */
  lemma SplitExtOfName(stem: string, ext: string)
    requires HasNonDot(stem) && forall j | 0 <= j < |stem| :: stem[j] != '/'
    requires |ext| > 0 && ext[0] == '.' && forall j | 1 <= j < |ext| :: ext[j] != '.' && ext[j] != '/'
    ensures SplitExt(stem + ext) == (stem, ext)
  {
    var p := stem + ext;
    NameIndices(stem, ext);
    assert p[0..|stem|] == stem;
    assert p[..|stem|] == stem && p[|stem|..] == ext;
  }

  /** A name without slashes whose only dot is its first character, such as
      ".pdf", has no extension. */
  lemma SplitExtOfDotName(p: string)
    requires |p| > 0 && p[0] == '.'
    requires forall j | 0 <= j < |p| :: p[j] != '/' && (j > 0 ==> p[j] != '.')
    ensures SplitExt(p) == (p, "")
  {
    LastIndexIs(p, '/', -1);
    LastIndexIs(p, '.', 0);
    assert p[0..0] == "";
  }

  /** Python's `sep.join(xs)`. */
  function Join(xs: seq<string>, sep: string): string
  {
    if |xs| == 0 then ""
    else if |xs| == 1 then xs[0]
    else xs[0] + sep + Join(xs[1..], sep)
  }
}
