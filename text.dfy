/**
 * The handful of Python string operations the backend relies on, written
 * out over `seq<char>`: substring search (`in`, `find`), `lower()`,
 * `strip()`, `replace(p, '')`, `rsplit`/`split(...)[-1]` and `str(n)`.
 */
module Text {
  import opened Wrappers

  /** `p` occurs in `s` starting at index `k`. */
  predicate At(s: string, p: string, k: nat) {
    k + |p| <= |s| && s[k..k + |p|] == p
  }

  /** The leftmost occurrence of `p` in `s` at or after index `k` (`s.find(p, k)`). */
  function Find(s: string, p: string, k: nat): (r: Option<nat>)
    decreases |s| - k
    ensures r.Some? ==> k <= r.value && At(s, p, r.value)
    ensures r.Some? ==> forall j :: k <= j < r.value ==> !At(s, p, j)
    ensures r.None? ==> forall j :: k <= j ==> !At(s, p, j)
  {
    if k + |p| > |s| then None
    else if At(s, p, k) then Some(k)
    else Find(s, p, k + 1)
  }

  /** Python's `p in s`. */
  predicate Contains(s: string, p: string) {
    exists k: nat | k <= |s| :: At(s, p, k)
  }

  lemma FindIffContains(s: string, p: string)
    ensures Find(s, p, 0).Some? <==> Contains(s, p)
  {
    if Find(s, p, 0).Some? {
      assert At(s, p, Find(s, p, 0).value);
    }
  }

  /** An occurrence inside a suffix is an occurrence in the whole string. */
  lemma AtInSuffix(s: string, a: nat, p: string, k: nat)
    requires a <= |s|
    ensures At(s[a..], p, k) <==> At(s, p, a + k)
  {
    if a + k + |p| <= |s| {
      assert s[a..][k..k + |p|] == s[a + k..a + k + |p|];
    }
  }

  /** An occurrence inside a prefix is an occurrence in the whole string. */
  lemma AtInPrefix(s: string, b: nat, p: string, k: nat)
    requires b <= |s|
    requires At(s[..b], p, k)
    ensures At(s, p, k)
  {
    assert s[..b][k..k + |p|] == s[k..k + |p|];
  }

  lemma AtInConcat(u: string, v: string, p: string, k: nat)
    ensures At(v, p, k) <==> At(u + v, p, |u| + k)
  {
    assert (u + v)[|u|..] == v;
    AtInSuffix(u + v, |u|, p, k);
  }

  // ---------------------------------------------------------------- lower()

  function LowerChar(c: char): char {
    if 'A' <= c <= 'Z' then (c as int + 32) as char else c
  }

  /** `s.lower()`, on the ASCII letters. */
  function Lower(s: string): (r: string)
    ensures |r| == |s|
    ensures forall i :: 0 <= i < |s| ==> r[i] == LowerChar(s[i])
  {
    seq(|s|, i requires 0 <= i < |s| => LowerChar(s[i]))
  }

  lemma LowerConcat(u: string, v: string)
    ensures Lower(u + v) == Lower(u) + Lower(v)
  {
  }

  // ---------------------------------------------------------------- strip()

  /** Python's `str.isspace()` for one character. */
  predicate IsSpace(c: char) {
    || c == ' '
    || ('\t' <= c <= '\r')
    || ('\U{1C}' <= c <= '\U{1F}')
    || c == '\U{85}' || c == '\U{A0}' || c == '\U{1680}'
    || ('\U{2000}' <= c <= '\U{200A}')
    || c == '\U{2028}' || c == '\U{2029}' || c == '\U{202F}' || c == '\U{205F}' || c == '\U{3000}'
  }

  function TrimStart(s: string): (r: string)
    ensures |r| <= |s| && r == s[|s| - |r|..]
    ensures r == [] || !IsSpace(r[0])
    ensures forall i :: 0 <= i < |s| - |r| ==> IsSpace(s[i])
  {
    if s != [] && IsSpace(s[0]) then TrimStart(s[1..]) else s
  }

  function TrimEnd(s: string): (r: string)
    ensures |r| <= |s| && r == s[..|r|]
    ensures r == [] || !IsSpace(r[|r| - 1])
    ensures forall i :: |r| <= i < |s| ==> IsSpace(s[i])
  {
    if s != [] && IsSpace(s[|s| - 1]) then TrimEnd(s[..|s| - 1]) else s
  }

  /**
   * `s.strip()`: drop the whitespace at both ends. The result is the slice of `s`
   * that starts after its leading whitespace, with only whitespace after it.
   */
  function Strip(s: string): (r: string)
    ensures r == [] || (!IsSpace(r[0]) && !IsSpace(r[|r| - 1]))
    ensures |s| - |TrimStart(s)| + |r| <= |s|
    ensures r == s[|s| - |TrimStart(s)|..|s| - |TrimStart(s)| + |r|]
    ensures forall i :: 0 <= i < |s| - |TrimStart(s)| ==> IsSpace(s[i])
    ensures forall i :: |s| - |TrimStart(s)| + |r| <= i < |s| ==> IsSpace(s[i])
  {
    var t := TrimStart(s);
    var r := TrimEnd(t);
    TrimBothEnds(s, t, r);
    r
  }

  /** Trimming the end of the trimmed start leaves a slice of `s` with whitespace only after it. */
  lemma TrimBothEnds(s: string, t: string, r: string)
    requires |t| <= |s| && t == s[|s| - |t|..] && (t == [] || !IsSpace(t[0]))
    requires |r| <= |t| && r == t[..|r|] && (r == [] || !IsSpace(r[|r| - 1]))
    requires forall i :: |r| <= i < |t| ==> IsSpace(t[i])
    ensures r == [] || (!IsSpace(r[0]) && !IsSpace(r[|r| - 1]))
    ensures |s| - |t| + |r| <= |s| && r == s[|s| - |t|..|s| - |t| + |r|]
    ensures forall i :: |s| - |t| + |r| <= i < |s| ==> IsSpace(s[i])
  {
    assert r == [] || r[0] == t[0];
    var a := |s| - |t|;
    forall i | a + |r| <= i < |s|
      ensures IsSpace(s[i])
    {
      assert s[i] == t[i - a];
    }
  }

  /** Text with no whitespace at either end is its own strip. */
  lemma StripStripped(s: string)
    requires s == [] || (!IsSpace(s[0]) && !IsSpace(s[|s| - 1]))
    ensures Strip(s) == s
  {
  }

  /** Whitespace at the start is skipped one character at a time. */
  lemma TrimStartSkipsSpace(c: char, s: string)
    requires IsSpace(c)
    ensures TrimStart([c] + s) == TrimStart(s)
  {
    assert ([c] + s)[1..] == s;
  }

  /** Whitespace at the end is dropped one character at a time. */
  lemma TrimEndDropsSpace(s: string, c: char)
    requires IsSpace(c)
    ensures TrimEnd(s + [c]) == TrimEnd(s)
  {
    assert (s + [c])[..|s|] == s;
  }

  /** Stripping only removes characters, so it cannot create an occurrence. */
  lemma StripKeepsOccurrences(s: string, p: string)
    requires Contains(Strip(s), p)
    ensures Contains(s, p)
  {
    var t := TrimStart(s);
    var r := TrimEnd(t);
    var k: nat :| At(r, p, k);
    AtInPrefix(t, |r|, p, k);
    AtInSuffix(s, |s| - |t|, p, k);
  }

  // ---------------------------------------------------------------- replace(p, '')

  /** `s.replace(p, '')`: remove the non-overlapping occurrences of `p`, scanning left to right. */
  function RemoveAll(s: string, p: string): (r: string)
    requires p != []
    decreases |s|
    ensures |r| <= |s|
  {
    if |s| < |p| then s
    else if s[..|p|] == p then RemoveAll(s[|p|..], p)
    else [s[0]] + RemoveAll(s[1..], p)
  }

  /** A text that does not start with the first character of `p` keeps its first character. */
  lemma RemoveAllKeepsHead(t: string, p: string)
    requires p != [] && t != [] && t[0] != p[0]
    ensures RemoveAll(t, p) != [] && RemoveAll(t, p)[0] == t[0]
  {
  }

  /** Text in which `p` cannot start is left as it is. */
  lemma {:induction false} RemoveAllWithout(s: string, p: string)
    requires p != [] && p[0] !in s
    ensures RemoveAll(s, p) == s
    decreases |s|
  {
    if |s| >= |p| {
      assert s[..|p|][0] == s[0];
      RemoveAllWithout(s[1..], p);
      assert [s[0]] + s[1..] == s;
    }
  }

  /** A run in which `p` cannot start passes through, and removal goes on after it. */
  lemma {:induction false} RemoveAllAfterPlain(s: string, t: string, p: string)
    requires p != [] && p[0] !in s
    ensures RemoveAll(s + t, p) == s + RemoveAll(t, p)
    decreases |s|
  {
    if s == [] {
      assert s + t == t;
    } else if |s + t| < |p| {
      assert RemoveAll(t, p) == t;
    } else {
      var u := s + t;
      assert u[..|p|][0] == s[0];
      assert u[..|p|] != p;
      assert u[1..] == s[1..] + t;
      assert RemoveAll(u, p) == [s[0]] + RemoveAll(s[1..] + t, p);
      assert p[0] !in s[1..];
      RemoveAllAfterPlain(s[1..], t, p);
      assert [s[0]] + (s[1..] + RemoveAll(t, p)) == s + RemoveAll(t, p);
    }
  }

  /** An occurrence at the very start is removed. */
  lemma RemoveAllLeading(p: string, t: string)
    requires p != []
    ensures RemoveAll(p + t, p) == RemoveAll(t, p)
  {
    assert (p + t)[..|p|] == p;
    assert (p + t)[|p|..] == t;
  }

  const Fence := "```"

  /** The head of `[c] + RemoveAll(t, Fence)` cannot start a fence unless `[c] + t` does. */
  lemma NoFenceAtJoin(s: string)
    requires |s| >= 3 && s[..3] != Fence
    ensures !At([s[0]] + RemoveAll(s[1..], Fence), Fence, 0)
  {
    var t := s[1..];
    var rt := RemoveAll(t, Fence);
    if s[0] == '`' && |rt| >= 2 && rt[0] == '`' && rt[1] == '`' {
      if t[0] != '`' {
        RemoveAllKeepsHead(t, Fence);
      } else {
        assert t[1] != '`';
        if |t| >= 3 {
          assert t[..3] != Fence;
        }
        assert rt == [t[0]] + RemoveAll(t[1..], Fence);
        RemoveAllKeepsHead(t[1..], Fence);
      }
    }
  }

  /**
   * After removing every fence left to right, no fence is left: the text
   * before a removed fence never ends in a backtick, so the pieces that
   * are joined cannot form a new one.
   */
  lemma {:induction false} RemoveFencesLeavesNone(s: string)
    ensures !Contains(RemoveAll(s, Fence), Fence)
  {
    var r := RemoveAll(s, Fence);
    if |s| < 3 {
      assert r == s;
    } else if s[..3] == Fence {
      RemoveFencesLeavesNone(s[3..]);
    } else {
      var rt := RemoveAll(s[1..], Fence);
      assert r == [s[0]] + rt;
      RemoveFencesLeavesNone(s[1..]);
      NoFenceAtJoin(s);
      forall k: nat | 0 < k
        ensures !At(r, Fence, k)
      {
        AtInConcat([s[0]], rt, Fence, k - 1);
      }
    }
  }

  // ---------------------------------------------------------------- rsplit / split

  /** The index of the last `c` in `s` (`s.rfind(c)`), if any. */
  function LastIndexOf(s: string, c: char): (r: Option<nat>)
    ensures r.Some? ==> r.value < |s| && s[r.value] == c
    ensures r.Some? ==> forall j :: r.value < j < |s| ==> s[j] != c
    ensures r.None? ==> c !in s
  {
    if s == [] then None
    else if s[|s| - 1] == c then Some(|s| - 1)
    else LastIndexOf(s[..|s| - 1], c)
  }

  /**
   * `name.rsplit('.', 1)[1]` (equally `name.split('.')[-1]`): the text after
   * the last dot; `None` when there is no dot, where indexing would fail.
   */
  function AfterLastDot(name: string): (r: Option<string>)
    ensures r.None? <==> '.' !in name
    ensures r.Some? ==> '.' !in r.value && |r.value| < |name|
    ensures r.Some? ==> name == name[..|name| - |r.value| - 1] + "." + r.value
  {
    match LastIndexOf(name, '.')
    case None => None
    case Some(i) =>
      assert name == name[..i] + "." + name[i + 1..];
      Some(name[i + 1..])
  }

  /** Splitting `stem.ext` at its last dot gives back `ext`. */
  lemma AfterLastDotOf(stem: string, ext: string)
    requires '.' !in ext
    ensures AfterLastDot(stem + "." + ext) == Some(ext)
  {
    var name := stem + "." + ext;
    assert name[|stem|] == '.';
    var r := AfterLastDot(name);
    assert r.value == name[|name| - |r.value|..];
  }

  /**
   * `os.path.splitext(p)[1]`: from the last dot of the last path component
   * to the end, unless every character before that dot in the component is
   * a dot (a leading-dot name such as `.png` has no extension).
   */
  function SplitExt(p: string): (r: string)
    ensures r == [] || (r[0] == '.' && '.' !in r[1..] && |r| <= |p| && r == p[|p| - |r|..])
  {
    var start := match LastIndexOf(p, '/') case None => 0 case Some(i) => i + 1;
    match LastIndexOf(p, '.')
    case None => []
    case Some(d) =>
      if exists j :: start <= j < d && p[j] != '.' then
        assert '.' !in p[d..][1..] by {
          forall k | 0 <= k < |p[d..][1..]| ensures p[d..][1..][k] != '.' {
            assert p[d..][1..][k] == p[d + 1 + k];
          }
        }
        p[d..]
      else []
  }

  /** The extension lies within the last path component, so it holds no separator. */
  lemma SplitExtHasNoSeparator(p: string)
    ensures '/' !in SplitExt(p)
  {
    var r := SplitExt(p);
    if r != [] {
      var d := LastIndexOf(p, '.').value;
      var start := match LastIndexOf(p, '/') case None => 0 case Some(i) => i + 1;
      assert r == p[d..];
      assert exists j :: start <= j < d && p[j] != '.';
      forall k | 0 <= k < |r| ensures r[k] != '/' {
        assert r[k] == p[d + k];
      }
    }
  }

  /** An occurrence of `c` with none after it is the last one. */
  lemma LastIndexOfAt(s: string, c: char, k: nat)
    requires k < |s| && s[k] == c
    requires forall j :: k < j < |s| ==> s[j] != c
    ensures LastIndexOf(s, c) == Some(k)
  {
    assert c in s by { assert s[k] == c; }
  }

  /** The separators of a path `dir + name`, where `dir` is empty or ends with `/` and `name` has none. */
  lemma LastSeparatorOfPath(dir: string, name: string)
    requires dir == [] || dir[|dir| - 1] == '/'
    requires '/' !in name
    ensures (match LastIndexOf(dir + name, '/') case None => 0 case Some(i) => i + 1) == |dir|
  {
    var p := dir + name;
    forall j | |dir| <= j < |p| ensures p[j] != '/' {
      assert p[j] == name[j - |dir|];
    }
    if dir == [] {
      assert p == name;
    } else {
      LastIndexOfAt(p, '/', |dir| - 1);
    }
  }

  /**
   * A last path component `stem.ext` with a character other than a dot in
   * its stem has the extension `.ext`: the last dot starts it. This covers
   * `photo.png` and `archive.tar.gz` (`.gz`).
   */
  lemma SplitExtOfName(dir: string, stem: string, ext: string)
    requires dir == [] || dir[|dir| - 1] == '/'
    requires '/' !in stem && '/' !in ext && '.' !in ext
    requires exists j :: 0 <= j < |stem| && stem[j] != '.'
    ensures SplitExt(dir + stem + "." + ext) == "." + ext
  {
    var p := dir + stem + "." + ext;
    var d := |dir| + |stem|;
    assert p == dir + (stem + "." + ext);
    LastSeparatorOfPath(dir, stem + "." + ext);
    LastDotOfName(p, d, ext);
    var j0 :| 0 <= j0 < |stem| && stem[j0] != '.';
    assert p[|dir| + j0] == stem[j0];
    SplitExtFromLastDot(p, |dir|, d, |dir| + j0);
    assert p[d..] == "." + ext;
  }

  lemma LastDotOfName(p: string, d: nat, ext: string)
    requires '.' !in ext && d + 1 + |ext| == |p| && p[d..] == "." + ext
    ensures LastIndexOf(p, '.') == Some(d)
  {
    assert p[d] == p[d..][0];
    forall j | d < j < |p| ensures p[j] != '.' {
      assert p[j] == p[d..][j - d] == ext[j - d - 1];
    }
    LastIndexOfAt(p, '.', d);
  }

  /** With a character other than a dot between the last separator and the last dot, the extension starts at that dot. */
  lemma SplitExtFromLastDot(p: string, start: nat, d: nat, j0: nat)
    requires (match LastIndexOf(p, '/') case None => 0 case Some(i) => i + 1) == start
    requires LastIndexOf(p, '.') == Some(d)
    requires start <= j0 < d && p[j0] != '.'
    ensures SplitExt(p) == p[d..]
  {
  }

  /** A last path component without a dot has no extension, whatever dots the directories hold. */
  lemma SplitExtOfDotlessName(dir: string, name: string)
    requires dir == [] || dir[|dir| - 1] == '/'
    requires '/' !in name && '.' !in name
    ensures SplitExt(dir + name) == []
  {
    var p := dir + name;
    LastSeparatorOfPath(dir, name);
    forall j | |dir| <= j < |p| ensures p[j] != '.' {
      assert p[j] == name[j - |dir|];
    }
  }

  /**
   * `s.split(sep)[-1]`: the piece after the last of the non-overlapping
   * occurrences of `sep` that a left-to-right split finds; `s` itself when
   * there is none.
   */
  function SplitLast(s: string, sep: string): (r: string)
    requires sep != []
    decreases |s|
    ensures |r| <= |s|
  {
    if Find(s, sep, 0).None? then s
    else SplitLast(s[Find(s, sep, 0).value + |sep|..], sep)
  }

  /** The last piece holds no further occurrence of `sep`. */
  lemma {:induction false} SplitLastHasNoSeparator(s: string, sep: string)
    requires sep != []
    ensures Find(SplitLast(s, sep), sep, 0).None?
    decreases |s|
  {
    if Find(s, sep, 0).Some? {
      SplitLastHasNoSeparator(s[Find(s, sep, 0).value + |sep|..], sep);
    }
  }

  /** When `sep` occurs at all, the last piece is immediately preceded by an occurrence of it. */
  lemma {:induction false} SplitLastFollowsSeparator(s: string, sep: string)
    requires sep != [] && Contains(s, sep)
    ensures |SplitLast(s, sep)| + |sep| <= |s|
    ensures At(s, sep, |s| - |SplitLast(s, sep)| - |sep|)
  {
    FindIffContains(s, sep);
    SplitLastAfterFind(s, sep);
    AtOfDecomposition(s, BeforeLast(s, sep), sep, SplitLast(s, sep));
  }

  /** The text before the occurrence of `sep` that precedes the last piece. */
  ghost function BeforeLast(s: string, sep: string): string
    requires sep != [] && Find(s, sep, 0).Some?
    decreases |s|
  {
    var i := Find(s, sep, 0).value;
    var t := s[i + |sep|..];
    if Find(t, sep, 0).None? then s[..i] else s[..i + |sep|] + BeforeLast(t, sep)
  }

  /** The text splits into what precedes the last occurrence taken, that occurrence, and the last piece. */
  lemma {:induction false} SplitLastAfterFind(s: string, sep: string)
    requires sep != [] && Find(s, sep, 0).Some?
    ensures s == BeforeLast(s, sep) + sep + SplitLast(s, sep)
    decreases |s|
  {
    var i := Find(s, sep, 0).value;
    var t := s[i + |sep|..];
    SplitLastStep(s, sep);
    if Find(t, sep, 0).None? {
      assert BeforeLast(s, sep) == s[..i] && SplitLast(t, sep) == t;
      JoinAroundOccurrence(s, i, sep);
    } else {
      SplitLastAfterFind(t, sep);
      JoinAfterPrefix(s, i + |sep|, BeforeLast(t, sep) + sep + SplitLast(t, sep), BeforeLast(t, sep), sep, SplitLast(s, sep));
    }
  }

  lemma JoinAroundOccurrence(s: string, i: nat, sep: string)
    requires At(s, sep, i)
    ensures s == s[..i] + sep + s[i + |sep|..]
  {
    assert s == s[..i] + s[i..i + |sep|] + s[i + |sep|..];
  }

  lemma JoinAfterPrefix(s: string, a: nat, t: string, before: string, sep: string, piece: string)
    requires a <= |s| && t == s[a..] && t == before + sep + piece
    ensures s == (s[..a] + before) + sep + piece
  {
    assert s == s[..a] + s[a..];
  }

  /** A decomposition around `sep` places an occurrence of `sep` right before the piece. */
  lemma AtOfDecomposition(s: string, before: string, sep: string, piece: string)
    requires s == before + sep + piece
    ensures |piece| + |sep| <= |s| && |before| == |s| - |piece| - |sep|
    ensures At(s, sep, |before|)
  {
    assert s[|before|..|before| + |sep|] == sep;
  }

  lemma SplitLastStep(s: string, sep: string)
    requires sep != [] && Find(s, sep, 0).Some?
    ensures Find(s, sep, 0).value + |sep| <= |s|
    ensures SplitLast(s, sep) == SplitLast(s[Find(s, sep, 0).value + |sep|..], sep)
  {
  }

  /** The last piece is a suffix of the text. */
  lemma {:induction false} SplitLastIsSuffix(s: string, sep: string)
    requires sep != []
    ensures SplitLast(s, sep) == s[|s| - |SplitLast(s, sep)|..]
    decreases |s|
  {
    FindIffContains(s, sep);
    if Find(s, sep, 0).Some? {
      var t := s[Find(s, sep, 0).value + |sep|..];
      SplitLastIsSuffix(t, sep);
      assert t[|t| - |SplitLast(t, sep)|..] == s[|s| - |SplitLast(t, sep)|..];
    }
  }

  // ---------------------------------------------------------------- str(n)

  predicate IsDigit(c: char) { '0' <= c <= '9' }

  predicate AllDigits(s: string) { forall i :: 0 <= i < |s| ==> IsDigit(s[i]) }

  function DigitChar(d: nat): (c: char)
    requires d < 10
    ensures IsDigit(c)
  {
    (48 + d) as char
  }

  function DigitValue(c: char): (d: nat)
    requires IsDigit(c)
    ensures d < 10
  {
    c as int - 48
  }

  /** `str(n)` for a natural number. */
  function DecimalString(n: nat): (r: string)
    ensures r != [] && AllDigits(r)
  {
    if n < 10 then [DigitChar(n)] else DecimalString(n / 10) + [DigitChar(n % 10)]
  }

  /** `int(s)` for a string of decimal digits. */
  function DecimalValue(s: string): nat
    requires AllDigits(s)
  {
    if s == [] then 0 else DecimalValue(s[..|s| - 1]) * 10 + DigitValue(s[|s| - 1])
  }

  /** Reading back what `str(n)` wrote gives `n`: printing is injective. */
  lemma {:induction false} DecimalRoundTrip(n: nat)
    ensures DecimalValue(DecimalString(n)) == n
  {
    if n >= 10 {
      var s := DecimalString(n);
      assert s[..|s| - 1] == DecimalString(n / 10);
      DecimalRoundTrip(n / 10);
    }
  }

  /** The longest run of digits at the start of `s`. */
  function DigitPrefix(s: string): (r: string)
    ensures |r| <= |s| && r == s[..|r|] && AllDigits(r)
  {
    if s != [] && IsDigit(s[0]) then [s[0]] + DigitPrefix(s[1..]) else []
  }

  lemma {:induction false} DigitPrefixOfDigitsThen(d: string, e: string)
    requires AllDigits(d)
    requires e == [] || !IsDigit(e[0])
    ensures DigitPrefix(d + e) == d
  {
    if d != [] {
      assert (d + e)[1..] == d[1..] + e;
      DigitPrefixOfDigitsThen(d[1..], e);
    }
  }
}
