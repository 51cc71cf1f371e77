/** The few pieces of Python's string and path library the pipeline relies on:
    `str(int)`, `str.strip`, `str.lower`, `str.join`, `os.path.splitext` and
    `os.path.basename` (POSIX flavour, `/` the only separator). */
module Text {

  // ---------------------------------------------------------------------------
  // Decimal rendering of integers, as `str(n)` and f-strings print them
  // ---------------------------------------------------------------------------

  function DigitChar(d: nat): (c: char)
    requires d < 10
    ensures '0' <= c <= '9'
  {
    (48 + d) as char
  }

  /** The digits of `n` without leading zeros. */
  function NatDigits(n: nat): (s: string)
    ensures 1 <= |s|
    ensures forall i :: 0 <= i < |s| ==> '0' <= s[i] <= '9'
    ensures n < 10 <==> |s| == 1
  {
    if n < 10 then [DigitChar(n)] else NatDigits(n / 10) + [DigitChar(n % 10)]
  }

  /** `str(n)`: a minus sign for negative numbers, then the digits. */
  function IntToDecimal(n: int): (s: string)
    ensures 1 <= |s|
    ensures s[0] == '-' <==> n < 0
    ensures forall i :: 0 < i < |s| ==> '0' <= s[i] <= '9'
    ensures 0 <= n ==> '0' <= s[0] <= '9'
  {
    if n < 0 then "-" + NatDigits(-n) else NatDigits(n)
  }

  /** Different numbers print differently. */
  lemma {:induction false} NatDigitsInjective(a: nat, b: nat)
    requires NatDigits(a) == NatDigits(b)
    ensures a == b
    decreases a
  {
    var s := NatDigits(a);
    if a < 10 {
      assert s == [DigitChar(a)];
      assert b < 10;
      assert s == [DigitChar(b)];
    } else {
      assert b >= 10;
      assert s == NatDigits(a / 10) + [DigitChar(a % 10)];
      assert s == NatDigits(b / 10) + [DigitChar(b % 10)];
      assert s[|s| - 1] == DigitChar(a % 10) == DigitChar(b % 10);
      assert NatDigits(a / 10) == s[..|s| - 1] == NatDigits(b / 10);
      NatDigitsInjective(a / 10, b / 10);
    }
  }

  lemma IntToDecimalInjective(a: int, b: int)
    requires IntToDecimal(a) == IntToDecimal(b)
    ensures a == b
  {
    var s := IntToDecimal(a);
    if a < 0 {
      assert b < 0;
      assert NatDigits(-a) == s[1..] == NatDigits(-b);
      NatDigitsInjective(-a, -b);
    } else {
      assert b >= 0;
      NatDigitsInjective(a, b);
    }
  }

  // ---------------------------------------------------------------------------
  // Whitespace and case
  // ---------------------------------------------------------------------------

  /** Python's `str.isspace` on one character. */
  predicate IsSpace(c: char)
  {
    || ('\U{9}' <= c <= '\U{D}')
    || ('\U{1C}' <= c <= '\U{20}')
    || c == '\U{85}' || c == '\U{A0}' || c == '\U{1680}'
    || ('\U{2000}' <= c <= '\U{200A}')
    || c == '\U{2028}' || c == '\U{2029}' || c == '\U{202F}' || c == '\U{205F}' || c == '\U{3000}'
  }

  /** `not s.strip()`: the string is empty or consists of whitespace only. */
  predicate IsBlank(s: string)
  {
    forall i :: 0 <= i < |s| ==> IsSpace(s[i])
  }

  function LowerChar(c: char): char
  {
    if 'A' <= c <= 'Z' then (c as int + 32) as char else c
  }

  /** `s.lower()` on ASCII letters; every other character is kept. */
  function Lower(s: string): (r: string)
    ensures |r| == |s|
    ensures forall i :: 0 <= i < |s| ==> r[i] == LowerChar(s[i])
  {
    if s == [] then [] else [LowerChar(s[0])] + Lower(s[1..])
  }

  // ---------------------------------------------------------------------------
  // Paths
  // ---------------------------------------------------------------------------

  /** `s.rfind(c)`: the last position of `c` in `s`, or -1. */
  function LastIndexOf(s: string, c: char): (r: int)
    ensures -1 <= r < |s|
    ensures 0 <= r ==> s[r] == c
    ensures forall j :: r < j < |s| ==> s[j] != c
  {
    if s == [] then -1
    else if s[|s| - 1] == c then |s| - 1
    else LastIndexOf(s[..|s| - 1], c)
  }

  /** `s.find(c)`: the first position of `c` in `s`, or -1. */
  function FirstIndexOf(s: string, c: char): (r: int)
    ensures -1 <= r < |s|
    ensures 0 <= r ==> s[r] == c
    ensures forall j :: 0 <= j < |s| && (r < 0 || j < r) ==> s[j] != c
  {
    if s == [] then -1
    else if s[0] == c then 0
    else var r := FirstIndexOf(s[1..], c); if r < 0 then -1 else r + 1
  }

  /** The first `c` of `x + [c] + y` is the one after `x` when `x` holds none. */
  lemma {:induction false} FirstIndexOfSplit(x: string, y: string, c: char)
    requires c !in x
    ensures FirstIndexOf(x + [c] + y, c) == |x|
  {
    if x != [] {
      FirstIndexOfSplit(x[1..], y, c);
      assert (x + [c] + y)[1..] == x[1..] + [c] + y;
    }
  }

  predicate HasNonDot(s: string)
  {
    exists j :: 0 <= j < |s| && s[j] != '.'
  }

  /** `os.path.splitext(p)`: the extension starts at the last dot of the last
      path component, unless everything before that dot in the component is
      a dot too (so `.bashrc` has no extension). */
  function SplitExt(p: string): (r: (string, string))
    ensures r.0 + r.1 == p
  {
    var sep := LastIndexOf(p, '/');
    var dot := LastIndexOf(p, '.');
    if sep < dot && HasNonDot(p[sep + 1..dot]) then (p[..dot], p[dot..]) else (p, [])
  }

  /** The extension is empty, or a dot followed by neither a dot nor a separator. */
  lemma SplitExtShape(p: string)
    ensures var e := SplitExt(p).1;
      e == [] || (e[0] == '.' && '/' !in e && '.' !in e[1..])
  {
    var sep := LastIndexOf(p, '/');
    var dot := LastIndexOf(p, '.');
    if sep < dot && HasNonDot(p[sep + 1..dot]) {
      ExtShape(p, sep, dot);
    }
  }

  lemma ExtShape(p: string, sep: int, dot: int)
    requires -1 <= sep < dot < |p| && p[dot] == '.'
    requires forall j :: sep < j < |p| ==> p[j] != '/'
    requires forall j :: dot < j < |p| ==> p[j] != '.'
    ensures p[dot..][0] == '.' && '/' !in p[dot..] && '.' !in p[dot..][1..]
  {
    var e := p[dot..];
    assert forall j :: 0 <= j < |e| ==> e[j] == p[dot + j];
  }

  /** `os.path.splitext(p)[1]`. */
  function Ext(p: string): string
  {
    SplitExt(p).1
  }

  /** `os.path.splitext(p)[1].lower()`: the extension both the upload check and
      the extraction dispatch compare. */
  function LowerExt(p: string): string
  {
    Lower(Ext(p))
  }

  /** `os.path.basename(p)`: everything after the last `/`. */
  function Basename(p: string): (r: string)
    ensures '/' !in r
    ensures |r| <= |p| && p == p[..|p| - |r|] + r
    ensures |r| == |p| || p[|p| - |r| - 1] == '/'
  {
    p[LastIndexOf(p, '/') + 1..]
  }

  /** `os.path.join(dir, name)` for a relative `name` and a `dir` without a trailing `/`. */
  function JoinPath(dir: string, name: string): string
  {
    dir + "/" + name
  }

  /** The last component of the extension is taken when the final component
      is `stem + ext` with a stem that holds no dot and no separator. */
  lemma ExtOfJoinedName(dir: string, stem: string, ext: string)
    requires stem != [] && '.' !in stem && '/' !in stem
    requires ext != [] && ext[0] == '.' && '.' !in ext[1..] && '/' !in ext
    ensures Ext(JoinPath(dir, stem + ext)) == ext
  {
    var p := JoinPath(dir, stem + ext);
    var d := |dir| + 1 + |stem|;
    LastDotOfJoinedName(dir, stem, ext);
    LastSlashOfJoinedName(dir, stem, ext);
    assert p == (dir + "/") + stem + ext;
    assert p[|dir| + 1..d] == stem;
    assert stem[0] != '.';
    assert HasNonDot(p[|dir| + 1..d]);
  }

  lemma LastDotOfJoinedName(dir: string, stem: string, ext: string)
    requires ext != [] && ext[0] == '.' && '.' !in ext[1..]
    ensures LastIndexOf(JoinPath(dir, stem + ext), '.') == |dir| + 1 + |stem|
  {
    var p := JoinPath(dir, stem + ext);
    var d := |dir| + 1 + |stem|;
    assert p == (dir + "/" + stem) + ext;
    assert forall j :: d <= j < |p| ==> p[j] == ext[j - d];
    assert forall j :: d < j < |p| ==> p[j] != '.' by {
      forall j | d < j < |p| ensures p[j] != '.' { assert p[j] == ext[1..][j - d - 1]; }
    }
    LastIndexOfIs(p, '.', d);
  }

  lemma LastSlashOfJoinedName(dir: string, stem: string, ext: string)
    requires '/' !in stem && '/' !in ext
    ensures LastIndexOf(JoinPath(dir, stem + ext), '/') == |dir|
  {
    var p := JoinPath(dir, stem + ext);
    assert p == (dir + "/") + (stem + ext);
    assert forall j :: |dir| < j < |p| ==> p[j] == (stem + ext)[j - |dir| - 1];
    assert '/' !in stem + ext;
    LastIndexOfIs(p, '/', |dir|);
  }

  /** A position holding `c` with no `c` after it is what `rfind` returns. */
  lemma {:induction false} LastIndexOfIs(s: string, c: char, k: nat)
    requires k < |s| && s[k] == c
    requires forall j :: k < j < |s| ==> s[j] != c
    ensures LastIndexOf(s, c) == k
  {
    if k < |s| - 1 {
      var init := s[..|s| - 1];
      assert forall j :: k < j < |init| ==> init[j] == s[j];
      LastIndexOfIs(init, c, k);
    }
  }

  // ---------------------------------------------------------------------------
  // Joining
  // ---------------------------------------------------------------------------

  /** `sep.join(parts)`. */
  function Join(parts: seq<string>, sep: string): string
  {
    if parts == [] then []
    else if |parts| == 1 then parts[0]
    else parts[0] + sep + Join(parts[1..], sep)
  }

  /** Where the `k`-th part starts in `Join(parts, sep)`. */
  function JoinOffset(parts: seq<string>, sep: string, k: nat): nat
    requires k <= |parts|
  {
    if k == 0 then 0 else |parts[0]| + |sep| + JoinOffset(parts[1..], sep, k - 1)
  }

  /** A slice of `b` inside `a + b`, shifted by `|a|`. */
  lemma SliceAfter(a: string, b: string, lo: nat, hi: nat)
    requires lo <= hi <= |b|
    ensures (a + b)[|a| + lo..|a| + hi] == b[lo..hi]
  {
    assert forall j :: lo <= j < hi ==> (a + b)[|a| + j] == b[j];
  }

  /** Every part appears, unchanged, at its offset in the joined string. */
  lemma {:induction false} JoinContainsPart(parts: seq<string>, sep: string, k: nat)
    requires k < |parts|
    ensures JoinOffset(parts, sep, k) + |parts[k]| <= |Join(parts, sep)|
    ensures Join(parts, sep)[JoinOffset(parts, sep, k)..JoinOffset(parts, sep, k) + |parts[k]|] == parts[k]
  {
    var j := Join(parts, sep);
    if |parts| == 1 {
    } else if k == 0 {
      assert j == parts[0] + (sep + Join(parts[1..], sep));
      assert j[..|parts[0]|] == parts[0];
    } else {
      var rest := parts[1..];
      var pre := parts[0] + sep;
      JoinContainsPart(rest, sep, k - 1);
      assert j == pre + Join(rest, sep);
      var o := JoinOffset(rest, sep, k - 1);
      assert JoinOffset(parts, sep, k) == |pre| + o;
      assert rest[k - 1] == parts[k];
      SliceAfter(pre, Join(rest, sep), o, o + |parts[k]|);
    }
  }
}
