/**
 * `search_and_download_images`: search for images, download the results of
 * the first search that returns any, and save each under a name built from
 * the query and the result's position. The search, each download (the
 * request and the file write together), joining a name onto the save
 * folder and the sleeps are outside the model: the first three are
 * parameters and the exponential back-off waits are returned as a list.
 */
module ImageSearch {
  import opened Wrappers
  import opened Text

  // ------------------------------------------------------------ file names

  predicate IsAlnum(c: char) {
    ('a' <= c <= 'z') || ('A' <= c <= 'Z') || IsDigit(c)
  }

  /** The characters `safe_query` keeps from the query. */
  predicate Kept(c: char) {
    IsAlnum(c) || c == ' ' || c == '-' || c == '_'
  }

  /** The characters of the query `safe_query` keeps, in order. */
  function KeptChars(query: string): (r: string)
    ensures |r| <= |query|
    ensures forall i :: 0 <= i < |r| ==> Kept(r[i])
  {
    if query == [] then []
    else (if Kept(query[0]) then [query[0]] else []) + KeptChars(query[1..])
  }

  /** One character is kept exactly when `Kept` accepts it. */
  lemma KeptCharsOne(c: char)
    ensures KeptChars([c]) == if Kept(c) then [c] else []
  {
    assert [c][1..] == [];
  }

  /** The filter works character by character: it distributes over concatenation. */
  lemma {:induction false} KeptCharsConcat(a: string, b: string)
    ensures KeptChars(a + b) == KeptChars(a) + KeptChars(b)
    decreases |a|
  {
    if a == [] {
      assert a + b == b;
    } else {
      assert (a + b)[0] == a[0];
      assert (a + b)[1..] == a[1..] + b;
      KeptCharsConcat(a[1..], b);
    }
  }

  /** `s.replace(' ', '_')`. */
  function Underscored(s: string): (r: string)
    ensures |r| == |s| && ' ' !in r
    ensures forall i :: 0 <= i < |s| && s[i] == ' ' ==> r[i] == '_'
    ensures forall i :: 0 <= i < |s| && s[i] != ' ' ==> r[i] == s[i]
  {
    seq(|s|, i requires 0 <= i < |s| => if s[i] == ' ' then '_' else s[i])
  }

  /** The file-name stem: the kept characters, stripped, with spaces turned into underscores. */
  function SafeQuery(query: string): string {
    Underscored(Strip(KeptChars(query)))
  }

  /** The stem is made of letters, digits, hyphens and underscores only, so it holds no path separator, dot or space. */
  lemma SafeQueryIsPlainName(query: string)
    ensures |SafeQuery(query)| <= |query|
    ensures forall i :: 0 <= i < |SafeQuery(query)| ==>
      IsAlnum(SafeQuery(query)[i]) || SafeQuery(query)[i] == '-' || SafeQuery(query)[i] == '_'
    ensures '/' !in SafeQuery(query) && '.' !in SafeQuery(query) && ' ' !in SafeQuery(query)
  {
    var kept := KeptChars(query);
    StripOfKept(kept);
    var stripped := Strip(kept);
    var r := SafeQuery(query);
    assert r == Underscored(stripped);
    forall i | 0 <= i < |r|
      ensures IsAlnum(r[i]) || r[i] == '-' || r[i] == '_'
    {
      if stripped[i] != ' ' {
        assert r[i] == stripped[i];
      }
    }
  }

  lemma StripOfKept(s: string)
    requires forall i :: 0 <= i < |s| ==> Kept(s[i])
    ensures |Strip(s)| <= |s|
    ensures forall i :: 0 <= i < |Strip(s)| ==> Kept(Strip(s)[i])
  {
    SliceOfKept(s, |s| - |TrimStart(s)|, Strip(s));
  }

  lemma SliceOfKept(s: string, a: nat, r: string)
    requires a + |r| <= |s| && r == s[a..a + |r|]
    requires forall i :: 0 <= i < |s| ==> Kept(s[i])
    ensures forall i :: 0 <= i < |r| ==> Kept(r[i])
  {
    forall i | 0 <= i < |r|
      ensures Kept(r[i])
    {
      assert r[i] == s[a + i];
    }
  }

  /** A query made only of letters, digits, hyphens and underscores is its own stem. */
  lemma {:induction false} SafeQueryKeepsPlainQuery(query: string)
    requires forall i :: 0 <= i < |query| ==> IsAlnum(query[i]) || query[i] == '-' || query[i] == '_'
    ensures SafeQuery(query) == query
  {
    KeptCharsOfKept(query);
    if query != [] {
      PlainIsNotSpace(query[0]);
      PlainIsNotSpace(query[|query| - 1]);
    }
    StripStripped(query);
    UnderscoredWithoutSpace(query);
  }

  lemma UnderscoredWithoutSpace(s: string)
    requires forall i :: 0 <= i < |s| ==> s[i] != ' '
    ensures Underscored(s) == s
  {
  }

  lemma PlainIsNotSpace(c: char)
    requires IsAlnum(c) || c == '-' || c == '_'
    ensures !IsSpace(c)
  {
  }

  lemma {:induction false} KeptCharsOfKept(query: string)
    requires forall i :: 0 <= i < |query| ==> Kept(query[i])
    ensures KeptChars(query) == query
  {
    if query != [] {
      KeptCharsOfKept(query[1..]);
    }
  }

  /** `f"{safe_query}_{idx+1}{ext}"`. */
  function ImageFilename(stem: string, idx: nat, ext: string): string {
    stem + "_" + DecimalString(idx + 1) + ext
  }

  /** The number a saved name carries after `stem_`, read back as `int` would. */
  function FileNumber(stem: string, filename: string): nat {
    if |filename| <= |stem| then 0 else DecimalValue(DigitPrefix(filename[|stem| + 1..]))
  }

  /** The position can be read back from the name: the name records `idx + 1`. */
  lemma FileNumberOfImageFilename(stem: string, idx: nat, ext: string)
    requires ext == [] || !IsDigit(ext[0])
    ensures FileNumber(stem, ImageFilename(stem, idx, ext)) == idx + 1
  {
    var digits := DecimalString(idx + 1);
    var f := ImageFilename(stem, idx, ext);
    assert f[|stem| + 1..] == digits + ext;
    DigitPrefixOfDigitsThen(digits, ext);
    DecimalRoundTrip(idx + 1);
  }

  /** Entries at different positions get different names, whatever their extensions. */
  lemma ImageFilenamesDiffer(stem: string, i: nat, j: nat, e1: string, e2: string)
    requires i != j
    requires e1 == [] || !IsDigit(e1[0])
    requires e2 == [] || !IsDigit(e2[0])
    ensures ImageFilename(stem, i, e1) != ImageFilename(stem, j, e2)
  {
    FileNumberOfImageFilename(stem, i, e1);
    FileNumberOfImageFilename(stem, j, e2);
  }

  /** A name built from a stem and an extension without separators stays inside the save folder. */
  lemma ImageFilenameHasNoSeparator(stem: string, idx: nat, ext: string)
    requires '/' !in stem && '/' !in ext
    ensures '/' !in ImageFilename(stem, idx, ext)
  {
    var digits := DecimalString(idx + 1);
    assert forall i :: 0 <= i < |digits| ==> digits[i] != '/';
  }

  // ------------------------------------------------------------ extensions

  /** `s.split(c)[0]`: the text before the first `c`. */
  function BeforeChar(s: string, c: char): (r: string)
    ensures |r| <= |s| && c !in r && r == s[..|r|]
    ensures c !in s ==> r == s
    ensures |r| < |s| ==> s[|r|] == c
  {
    if s == [] || s[0] == c then [] else [s[0]] + BeforeChar(s[1..], c)
  }

  /** The content type names one of the four image formats the code recognises. */
  predicate KnownType(contentType: string) {
    var ct := Lower(contentType);
    Contains(ct, "jpeg") || Contains(ct, "jpg") || Contains(ct, "png") || Contains(ct, "gif") || Contains(ct, "webp")
  }

  /**
   * The extension of a saved image: from the lower-cased content type by
   * first match, else the extension of the URL path before any query
   * string, else `.jpg`.
   */
  function ExtensionFor(contentType: string, url: string): (r: string)
    ensures r != [] && r[0] == '.' && '.' !in r[1..]
    ensures '/' !in r && '?' !in r
    ensures KnownType(contentType) ==> r in {".jpg", ".png", ".gif", ".webp"}
  {
    var ct := Lower(contentType);
    if Contains(ct, "jpeg") || Contains(ct, "jpg") then ".jpg"
    else if Contains(ct, "png") then ".png"
    else if Contains(ct, "gif") then ".gif"
    else if Contains(ct, "webp") then ".webp"
    else UrlExtension(url)
  }

  /** `os.path.splitext(url.split('?')[0])[1] or '.jpg'`. */
  function UrlExtension(url: string): (r: string)
    ensures r != [] && r[0] == '.' && '.' !in r[1..]
    ensures '/' !in r && '?' !in r
  {
    var path := BeforeChar(url, '?');
    var e := SplitExt(path);
    SplitExtHasNoSeparator(path);
    assert '?' !in e by {
      forall i | 0 <= i < |e| ensures e[i] != '?' {
        assert e[i] == path[|path| - |e| + i];
      }
    }
    if e == [] then ".jpg" else e
  }

  /** A recognised content type decides the extension whatever the URL says. */
  lemma ExtensionIgnoresUrlForKnownType(contentType: string, url1: string, url2: string)
    requires KnownType(contentType)
    ensures ExtensionFor(contentType, url1) == ExtensionFor(contentType, url2)
  {
  }

  /** Otherwise only the URL path matters, and a query string does not. */
  lemma ExtensionFromUrlPath(ct1: string, ct2: string, url: string, query: string)
    requires !KnownType(ct1) && !KnownType(ct2) && '?' !in url
    ensures ExtensionFor(ct1, url) == ExtensionFor(ct2, url + "?" + query)
  {
    assert ExtensionFor(ct1, url) == UrlExtension(url);
    assert ExtensionFor(ct2, url + "?" + query) == UrlExtension(url + "?" + query);
    BeforeCharOfJoin(url, query);
  }

  lemma {:induction false} BeforeCharOfJoin(url: string, query: string)
    requires '?' !in url
    ensures BeforeChar(url + "?" + query, '?') == url
  {
    if url != [] {
      assert (url + "?" + query)[1..] == url[1..] + "?" + query;
      BeforeCharOfJoin(url[1..], query);
    }
  }

  /** A jpeg content type wins over any other format named with it. */
  lemma JpegTypeFirst(contentType: string, url: string)
    requires Contains(Lower(contentType), "jpeg")
    ensures ExtensionFor(contentType, url) == ".jpg"
  {
  }

  /** So does a type spelt `jpg`. */
  lemma JpgTypeFirst(contentType: string, url: string)
    requires Contains(Lower(contentType), "jpg")
    ensures ExtensionFor(contentType, url) == ".jpg"
  {
  }

  /** Without jpeg or jpg, a png type gives `.png`. */
  lemma PngType(contentType: string, url: string)
    requires !Contains(Lower(contentType), "jpeg") && !Contains(Lower(contentType), "jpg")
    requires Contains(Lower(contentType), "png")
    ensures ExtensionFor(contentType, url) == ".png"
  {
  }

  /** Without jpeg, jpg or png, a gif type gives `.gif`. */
  lemma GifType(contentType: string, url: string)
    requires !Contains(Lower(contentType), "jpeg") && !Contains(Lower(contentType), "jpg")
    requires !Contains(Lower(contentType), "png") && Contains(Lower(contentType), "gif")
    ensures ExtensionFor(contentType, url) == ".gif"
  {
  }

  /** Without any of the earlier four, a webp type gives `.webp`. */
  lemma WebpType(contentType: string, url: string)
    requires !Contains(Lower(contentType), "jpeg") && !Contains(Lower(contentType), "jpg")
    requires !Contains(Lower(contentType), "png") && !Contains(Lower(contentType), "gif")
    requires Contains(Lower(contentType), "webp")
    ensures ExtensionFor(contentType, url) == ".webp"
  {
  }

  /** An unrecognised type leaves the choice to the URL. */
  lemma UnknownTypeUsesUrl(contentType: string, url: string)
    requires !KnownType(contentType)
    ensures ExtensionFor(contentType, url) == UrlExtension(url)
  {
  }

  /**
   * A URL whose last path component is `stem.ext` (with a character other
   * than a dot in the stem) gives `.ext`, with or without a query string.
   */
  lemma UrlExtensionOfName(dir: string, stem: string, ext: string, query: string)
    requires dir == [] || dir[|dir| - 1] == '/'
    requires '/' !in stem && '/' !in ext && '.' !in ext
    requires '?' !in dir && '?' !in stem && '?' !in ext
    requires exists j :: 0 <= j < |stem| && stem[j] != '.'
    ensures UrlExtension(dir + stem + "." + ext) == "." + ext
    ensures UrlExtension(dir + stem + "." + ext + "?" + query) == "." + ext
  {
    var url := dir + stem + "." + ext;
    assert '?' !in url;
    BeforeCharOfJoin(url, query);
    SplitExtOfName(dir, stem, ext);
  }

  /** A URL whose last path component has no dot falls back to `.jpg`, with or without a query string. */
  lemma UrlExtensionOfDotlessName(dir: string, name: string, query: string)
    requires dir == [] || dir[|dir| - 1] == '/'
    requires '/' !in name && '.' !in name && '?' !in dir && '?' !in name
    ensures UrlExtension(dir + name) == ".jpg"
    ensures UrlExtension(dir + name + "?" + query) == ".jpg"
  {
    assert '?' !in dir + name;
    BeforeCharOfJoin(dir + name, query);
    SplitExtOfDotlessName(dir, name);
  }

  // ------------------------------------------------------------ downloading

  /** One search result: its `image` URL, which may be missing. */
  datatype ImageResult = ImageResult(image: Option<string>)

  /** One entry of the returned list. */
  datatype Downloaded = Downloaded(originalUrl: string, filename: string, localPath: string)

  /** `s[:n]` with Python's meaning for a negative `n`. */
  function PrefixSlice<T>(s: seq<T>, n: int): (r: seq<T>)
    ensures |r| <= |s| && r == s[..|r|]
    ensures n >= 0 ==> |r| == if n < |s| then n else |s|
    ensures n < 0 ==> |r| == if |s| + n > 0 then |s| + n else 0
  {
    if n >= 0 then (if n < |s| then s[..n] else s)
    else if |s| + n > 0 then s[..|s| + n] else []
  }

  /**
   * What the result at position `idx` adds: nothing when it has no URL or
   * its download fails, else the URL with the name it was saved under.
   */
  function DownloadOf(query: string, idx: nat, result: ImageResult,
                      download: string -> Result<string, string>, join: string -> string): Option<Downloaded>
  {
    if result.image.None? || result.image.value == [] then None
    else
      var url := result.image.value;
      match download(url)
      case Err(_) => None
      case Ok(contentType) =>
        var filename := ImageFilename(SafeQuery(query), idx, ExtensionFor(contentType, url));
        Some(Downloaded(url, filename, join(filename)))
  }

  /** The name of a saved entry records its position and holds no path separator. */
  lemma DownloadOfNamed(query: string, idx: nat, result: ImageResult,
                        download: string -> Result<string, string>, join: string -> string)
    ensures var d := DownloadOf(query, idx, result, download, join);
      d.Some? ==> FileNumber(SafeQuery(query), d.value.filename) == idx + 1 && '/' !in d.value.filename
  {
    if result.image.Some? && result.image.value != [] && download(result.image.value).Ok? {
      var url := result.image.value;
      var ext := ExtensionFor(download(url).value, url);
      var stem := SafeQuery(query);
      SafeQueryIsPlainName(query);
      ImageFilenameNamed(stem, idx, ext);
      assert DownloadOf(query, idx, result, download, join).value.filename == ImageFilename(stem, idx, ext);
    }
  }

  lemma ImageFilenameNamed(stem: string, idx: nat, ext: string)
    requires '/' !in stem && ext != [] && ext[0] == '.' && '/' !in ext
    ensures FileNumber(stem, ImageFilename(stem, idx, ext)) == idx + 1
    ensures '/' !in ImageFilename(stem, idx, ext)
  {
    FileNumberOfImageFilename(stem, idx, ext);
    ImageFilenameHasNoSeparator(stem, idx, ext);
  }

  /** What each result adds, by position. */
  function Outcomes(query: string, results: seq<ImageResult>,
                    download: string -> Result<string, string>, join: string -> string): (r: seq<Option<Downloaded>>)
    ensures |r| == |results|
  {
    seq(|results|, i requires 0 <= i < |results| => DownloadOf(query, i, results[i], download, join))
  }

  /** The entries that are there, in order. */
  function Present<T>(s: seq<Option<T>>): (r: seq<T>)
    ensures |r| <= |s|
  {
    if s == [] then [] else Present(s[..|s| - 1]) + (if s[|s| - 1].Some? then [s[|s| - 1].value] else [])
  }

  /** Every entry that is there is kept: a missing one does not hide those after it. */
  lemma {:induction false} PresentKeepsEvery<T>(s: seq<Option<T>>)
    ensures forall i :: 0 <= i < |s| && s[i].Some? ==> s[i].value in Present(s)
  {
    if s != [] {
      PresentKeepsEvery(s[..|s| - 1]);
      assert forall i :: 0 <= i < |s| - 1 ==> s[..|s| - 1][i] == s[i];
    }
  }

  /** The positions of the entries that are there, in order. */
  function Positions<T>(s: seq<Option<T>>): (r: seq<nat>)
    ensures |r| == |Present(s)|
  {
    if s == [] then [] else Positions(s[..|s| - 1]) + (if s[|s| - 1].Some? then [|s| - 1] else [])
  }

  /** Each kept entry is the one at its position, and positions increase along the list. */
  lemma {:induction false} PositionsMatch<T>(s: seq<Option<T>>)
    ensures forall j :: 0 <= j < |Positions(s)| ==>
      Positions(s)[j] < |s| && s[Positions(s)[j]] == Some(Present(s)[j])
    ensures forall a, b :: 0 <= a < b < |Positions(s)| ==> Positions(s)[a] < Positions(s)[b]
  {
    if s != [] {
      var front := s[..|s| - 1];
      PositionsMatch(front);
      assert forall i :: 0 <= i < |front| ==> front[i] == s[i];
    }
  }

  /** Every result's outcome is named by its position and stays inside the save folder. */
  lemma OutcomesNamed(query: string, results: seq<ImageResult>,
                      download: string -> Result<string, string>, join: string -> string)
    ensures var s := Outcomes(query, results, download, join);
      forall i :: 0 <= i < |s| && s[i].Some? ==>
        FileNumber(SafeQuery(query), s[i].value.filename) == i + 1 && '/' !in s[i].value.filename
  {
    var s := Outcomes(query, results, download, join);
    forall i | 0 <= i < |s| && s[i].Some?
      ensures FileNumber(SafeQuery(query), s[i].value.filename) == i + 1 && '/' !in s[i].value.filename
    {
      DownloadOfNamed(query, i, results[i], download, join);
    }
  }

  /** The entries saved from the results, in order. */
  function Downloads(query: string, results: seq<ImageResult>,
                     download: string -> Result<string, string>, join: string -> string): (r: seq<Downloaded>)
    ensures |r| <= |results|
  {
    Present(Outcomes(query, results, download, join))
  }

  /**
   * When the name of the entry at each position records that position and
   * holds no separator, the kept entries have those names, their numbers
   * increase along the list, and so no two share a name.
   */
  lemma PresentNamed(s: seq<Option<Downloaded>>, stem: string)
    requires forall i :: 0 <= i < |s| && s[i].Some? ==>
      FileNumber(stem, s[i].value.filename) == i + 1 && '/' !in s[i].value.filename
    ensures forall j :: 0 <= j < |Present(s)| ==>
      var n := FileNumber(stem, Present(s)[j].filename);
      1 <= n <= |s| && s[n - 1] == Some(Present(s)[j]) && '/' !in Present(s)[j].filename
    ensures forall a, b :: 0 <= a < b < |Present(s)| ==> Present(s)[a].filename != Present(s)[b].filename
  {
    var d := Present(s);
    var p := Positions(s);
    PositionsMatch(s);
    forall j | 0 <= j < |d|
      ensures FileNumber(stem, d[j].filename) == p[j] + 1 && '/' !in d[j].filename
    {
      assert s[p[j]] == Some(d[j]);
    }
    forall a, b | 0 <= a < b < |d|
      ensures d[a].filename != d[b].filename
    {
      assert FileNumber(stem, d[a].filename) < FileNumber(stem, d[b].filename);
    }
  }

  /** Each saved entry is the download of the result at the position its name records. */
  lemma DownloadsNumbered(query: string, results: seq<ImageResult>,
                          download: string -> Result<string, string>, join: string -> string)
    ensures var d := Downloads(query, results, download, join);
      forall j, i :: 0 <= j < |d| && 0 <= i < |results| && FileNumber(SafeQuery(query), d[j].filename) == i + 1 ==>
        DownloadOf(query, i, results[i], download, join) == Some(d[j])
  {
    var s := Outcomes(query, results, download, join);
    var d := Downloads(query, results, download, join);
    assert d == Present(s);
    OutcomesNamed(query, results, download, join);
    forall j, i | 0 <= j < |d| && 0 <= i < |results| && FileNumber(SafeQuery(query), d[j].filename) == i + 1
      ensures DownloadOf(query, i, results[i], download, join) == Some(d[j])
    {
      PresentAtNumber(s, SafeQuery(query), j, i);
      OutcomeAt(query, results, download, join, i);
    }
  }

  /** The kept entry whose name records position `i + 1` is the entry at `i`. */
  lemma PresentAtNumber(s: seq<Option<Downloaded>>, stem: string, j: nat, i: nat)
    requires forall i :: 0 <= i < |s| && s[i].Some? ==>
      FileNumber(stem, s[i].value.filename) == i + 1 && '/' !in s[i].value.filename
    requires j < |Present(s)| && i < |s| && FileNumber(stem, Present(s)[j].filename) == i + 1
    ensures s[i] == Some(Present(s)[j])
  {
    PresentNamed(s, stem);
  }

  /**
   * Every saved name records a position among the results, no two saved
   * entries share a name, and every name stays inside the save folder.
   */
  lemma DownloadsDistinct(query: string, results: seq<ImageResult>,
                          download: string -> Result<string, string>, join: string -> string)
    ensures var d := Downloads(query, results, download, join);
      && (forall j :: 0 <= j < |d| ==> 1 <= FileNumber(SafeQuery(query), d[j].filename) <= |results|)
      && (forall a, b :: 0 <= a < b < |d| ==> d[a].filename != d[b].filename)
      && (forall j :: 0 <= j < |d| ==> '/' !in d[j].filename)
  {
    var s := Outcomes(query, results, download, join);
    OutcomesNamed(query, results, download, join);
    PresentNamed(s, SafeQuery(query));
  }

  lemma OutcomeAt(query: string, results: seq<ImageResult>,
                  download: string -> Result<string, string>, join: string -> string, i: nat)
    requires i < |results|
    ensures Outcomes(query, results, download, join)[i] == DownloadOf(query, i, results[i], download, join)
  {
  }

  /** A failed download or a result without a URL skips that result only: every other success is saved. */
  lemma DownloadsKeepEverySuccess(query: string, results: seq<ImageResult>,
                                  download: string -> Result<string, string>, join: string -> string)
    ensures forall i :: 0 <= i < |results| && DownloadOf(query, i, results[i], download, join).Some? ==>
      DownloadOf(query, i, results[i], download, join).value in Downloads(query, results, download, join)
  {
    var s := Outcomes(query, results, download, join);
    PresentKeepsEvery(s);
    assert forall i :: 0 <= i < |results| ==> s[i] == DownloadOf(query, i, results[i], download, join);
  }

  /** The download loop: over `results[:limit]` with their positions. */
  method DownloadAll(query: string, results: seq<ImageResult>, limit: int,
                     download: string -> Result<string, string>, join: string -> string)
    returns (images: seq<Downloaded>)
    ensures images == Downloads(query, PrefixSlice(results, limit), download, join)
  {
    var taken := PrefixSlice(results, limit);
    ghost var outcomes := Outcomes(query, taken, download, join);
    images := [];
    for idx := 0 to |taken|
      invariant images == Present(outcomes[..idx])
    {
      assert outcomes[..idx + 1][..idx] == outcomes[..idx];
      var imageUrl := taken[idx].image;
      if imageUrl.None? || imageUrl.value == [] {
        continue;
      }
      var response := download(imageUrl.value);
      if response.Err? {
        continue;
      }
      var ext := ExtensionFor(response.value, imageUrl.value);
      var safeQuery := SafeQuery(query);
      var filename := ImageFilename(safeQuery, idx, ext);
      images := images + [Downloaded(imageUrl.value, filename, join(filename))];
    }
    assert outcomes[..|taken|] == outcomes;
  }

  // ------------------------------------------------------------ retrying

  const MaxRetries := 3
  const RetryDelay := 5
  const MaxResultsCap := 20

  function Pow2(n: nat): (r: nat)
    ensures r >= 1
  {
    if n == 0 then 1 else 2 * Pow2(n - 1)
  }

  function Min(a: int, b: int): int {
    if a < b then a else b
  }

  /** A search error counts as rate limiting when its text mentions 403 or Ratelimit. */
  predicate IsRateLimit(error: string) {
    Contains(error, "403") || Contains(error, "Ratelimit")
  }

  /** The images saved, the back-off waits in seconds, and the number of searches made. */
  datatype SearchRun = SearchRun(images: seq<Downloaded>, waits: seq<nat>, attempts: nat)

  /**
   * The attempts from `attempt` on, after `waits`: `search(maxResults,
   * attempt)` is the search made on that attempt.
   */
  function Run(query: string, limit: int, search: (int, nat) -> Result<seq<ImageResult>, string>,
               download: string -> Result<string, string>, join: string -> string,
               attempt: nat, waits: seq<nat>): SearchRun
    requires attempt <= MaxRetries
    decreases MaxRetries - attempt
  {
    if attempt == MaxRetries then SearchRun([], waits, MaxRetries)
    else
      match search(Min(limit, MaxResultsCap), attempt)
      case Ok(results) =>
        if results == [] then Run(query, limit, search, download, join, attempt + 1, waits)
        else
          var taken := PrefixSlice(results, limit);
          SearchRun(Downloads(query, taken, download, join), waits, attempt + 1)
      case Err(error) =>
        if IsRateLimit(error) && attempt < MaxRetries - 1 then
          Run(query, limit, search, download, join, attempt + 1, waits + [RetryDelay * Pow2(attempt)])
        else SearchRun([], waits, attempt + 1)
  }

  /** The last attempt never waits, whatever its search returns. */
  lemma LastAttemptNeverWaits(query: string, limit: int, search: (int, nat) -> Result<seq<ImageResult>, string>,
                              download: string -> Result<string, string>, join: string -> string, waits: seq<nat>)
    ensures var r := Run(query, limit, search, download, join, MaxRetries - 1, waits);
      && r.waits == waits && r.attempts == MaxRetries
      && (limit >= 0 ==> |r.images| <= limit)
  {
  }

  /** The second attempt waits 10 s at most, and only when a third attempt follows. */
  lemma SecondAttemptWaits(query: string, limit: int, search: (int, nat) -> Result<seq<ImageResult>, string>,
                           download: string -> Result<string, string>, join: string -> string, waits: seq<nat>)
    ensures var r := Run(query, limit, search, download, join, 1, waits);
      && (r.waits == waits || (r.waits == waits + [10] && r.attempts == MaxRetries))
      && 2 <= r.attempts <= MaxRetries
      && (limit >= 0 ==> |r.images| <= limit)
  {
    LastAttemptNeverWaits(query, limit, search, download, join, waits);
    LastAttemptNeverWaits(query, limit, search, download, join, waits + [10]);
    assert RetryDelay * Pow2(1) == 10;
  }

  /**
   * A whole run: one to three searches; the waits are none, 5 s, 10 s or
   * 5 s then 10 s, the last attempt never waits; and no more images are
   * saved than `limit`.
   */
  lemma RunFromStart(query: string, limit: int, search: (int, nat) -> Result<seq<ImageResult>, string>,
                     download: string -> Result<string, string>, join: string -> string)
    ensures var r := Run(query, limit, search, download, join, 0, []);
      && 1 <= r.attempts <= MaxRetries
      && |r.waits| < r.attempts
      && (r.waits == [] || r.waits == [5] || r.waits == [10] || r.waits == [5, 10])
      && (limit >= 0 ==> |r.images| <= limit)
  {
    var r := Run(query, limit, search, download, join, 0, []);
    match search(Min(limit, MaxResultsCap), 0)
    case Ok(results) =>
      if results == [] {
        assert r == Run(query, limit, search, download, join, 1, []);
        SecondAttemptWaits(query, limit, search, download, join, []);
        assert [] + [10] == [10];
      }
    case Err(error) =>
      if IsRateLimit(error) {
        assert RetryDelay * Pow2(0) == 5;
        assert [] + [5] == [5];
        assert r == Run(query, limit, search, download, join, 1, [5]);
        SecondAttemptWaits(query, limit, search, download, join, [5]);
        assert [5] + [10] == [5, 10];
      }
  }

  /**
   * A non-empty result ends the loop: images are saved only from the last
   * search made, and only when it returned results.
   */
  lemma {:induction false} RunImagesFromLastSearch(query: string, limit: int, search: (int, nat) -> Result<seq<ImageResult>, string>,
                                                   download: string -> Result<string, string>, join: string -> string,
                                                   attempt: nat, waits: seq<nat>)
    requires attempt <= MaxRetries
    ensures var r := Run(query, limit, search, download, join, attempt, waits);
      r.images != [] ==>
        attempt < r.attempts &&
        var found := search(Min(limit, MaxResultsCap), r.attempts - 1);
        found.Ok? && found.value != [] &&
        r.images == Downloads(query, PrefixSlice(found.value, limit), download, join)
    decreases MaxRetries - attempt
  {
    if attempt < MaxRetries {
      match search(Min(limit, MaxResultsCap), attempt)
      case Ok(results) =>
        if results == [] {
          assert Run(query, limit, search, download, join, attempt, waits)
              == Run(query, limit, search, download, join, attempt + 1, waits);
          RunImagesFromLastSearch(query, limit, search, download, join, attempt + 1, waits);
        } else {
          var r := Run(query, limit, search, download, join, attempt, waits);
          assert r.images == Downloads(query, PrefixSlice(results, limit), download, join);
          assert r.attempts == attempt + 1;
        }
      case Err(error) =>
        if IsRateLimit(error) && attempt < MaxRetries - 1 {
          assert Run(query, limit, search, download, join, attempt, waits)
              == Run(query, limit, search, download, join, attempt + 1, waits + [RetryDelay * Pow2(attempt)]);
          RunImagesFromLastSearch(query, limit, search, download, join, attempt + 1, waits + [RetryDelay * Pow2(attempt)]);
        }
    }
  }

  /** Images are saved only from a search that returned results; every other run saves none. */
  lemma RunImagesFromResults(query: string, limit: int, search: (int, nat) -> Result<seq<ImageResult>, string>,
                             download: string -> Result<string, string>, join: string -> string,
                             attempt: nat, waits: seq<nat>)
    requires attempt <= MaxRetries
    ensures var r := Run(query, limit, search, download, join, attempt, waits);
      r.images != [] ==>
        exists a :: attempt <= a < r.attempts &&
          var found := search(Min(limit, MaxResultsCap), a);
          found.Ok? && found.value != [] &&
          r.images == Downloads(query, PrefixSlice(found.value, limit), download, join)
  {
    RunImagesFromLastSearch(query, limit, search, download, join, attempt, waits);
    var r := Run(query, limit, search, download, join, attempt, waits);
    if r.images != [] {
      var a := r.attempts - 1;
      assert attempt <= a < r.attempts;
    }
  }

  /**
   * `search_and_download_images` with its retry loop: an empty result
   * list retries at once, a rate-limit error waits `5 * 2^attempt` seconds
   * unless it was the last attempt, any other error stops, and the first
   * non-empty result list is downloaded and ends the loop.
   */
  method SearchAndDownloadImages(query: string, limit: int, search: (int, nat) -> Result<seq<ImageResult>, string>,
                                 download: string -> Result<string, string>, join: string -> string)
    returns (images: seq<Downloaded>, waits: seq<nat>, attempts: nat)
    ensures SearchRun(images, waits, attempts) == Run(query, limit, search, download, join, 0, [])
  {
    images := [];
    waits := [];
    attempts := 0;
    var attempt := 0;
    while attempt < MaxRetries
      invariant attempt <= MaxRetries
      invariant images == [] && attempts == attempt
      invariant Run(query, limit, search, download, join, 0, []) == Run(query, limit, search, download, join, attempt, waits)
      decreases MaxRetries - attempt
    {
      attempts := attempt + 1;
      var found := search(Min(limit, MaxResultsCap), attempt);
      if found.Ok? {
        if found.value == [] {
          attempt := attempt + 1;
          continue;
        }
        images := DownloadAll(query, found.value, limit, download, join);
        break;
      }
      if Contains(found.error, "403") || Contains(found.error, "Ratelimit") {
        if attempt < MaxRetries - 1 {
          waits := waits + [RetryDelay * Pow2(attempt)];
        } else {
          break;
        }
      } else {
        break;
      }
      attempt := attempt + 1;
    }
  }
}
