/**
 * `cleanup_images`: deleting the downloaded images a note no longer uses,
 * named by their URLs. The download folder is the set of names of the
 * regular files in it; `secure` stands for `secure_filename`.
 */
module ImageCleanup {
  import opened Wrappers
  import opened Text
  import opened RouteRules

  const NoUrlsMessage := "No URLs provided"

  function CleanedMessage(count: nat): string {
    "Cleaned up " + DecimalString(count) + " images"
  }

  /** The sanitized name a URL asks to delete, for URLs pointing into the download folder. */
  function Target(url: string, secure: string -> string): Option<string> {
    match DownloadedImageName(url)
    case None => None
    case Some(name) => Some(secure(name))
  }

  /** Every name the URLs ask to delete. */
  function Targets(urls: seq<string>, secure: string -> string): set<string> {
    if urls == [] then {}
    else
      var u := urls[|urls| - 1];
      Targets(urls[..|urls| - 1], secure) + (if Target(u, secure).Some? then {Target(u, secure).value} else {})
  }

  /**
   * A URL asks for a name exactly when it holds the marker, and the name is
   * the sanitised end of the URL that follows an occurrence of the marker
   * and holds no marker itself.
   */
  lemma TargetOf(url: string, secure: string -> string)
    ensures Target(url, secure).Some? <==> Contains(url, DownloadedImagesMarker)
    ensures Contains(url, DownloadedImagesMarker) ==>
      var name := SplitLast(url, DownloadedImagesMarker);
      && Target(url, secure) == Some(secure(name))
      && !Contains(name, DownloadedImagesMarker)
      && |name| + |DownloadedImagesMarker| <= |url|
      && name == url[|url| - |name|..]
      && At(url, DownloadedImagesMarker, |url| - |name| - |DownloadedImagesMarker|)
  {
    if Contains(url, DownloadedImagesMarker) {
      DownloadedImageNameFollowsMarker(url);
    }
  }

  lemma TargetIsLastPiece(url: string, secure: string -> string)
    ensures Target(url, secure)
      == if Contains(url, DownloadedImagesMarker) then Some(secure(SplitLast(url, DownloadedImagesMarker))) else None
  {
  }

  lemma TargetsStep(urls: seq<string>, k: nat, secure: string -> string)
    requires k < |urls|
    ensures Targets(urls[..k + 1], secure)
      == Targets(urls[..k], secure) + (if Target(urls[k], secure).Some? then {Target(urls[k], secure).value} else {})
  {
    assert urls[..k + 1][..k] == urls[..k];
  }

  /** Each name is asked for by one of the URLs. */
  lemma {:induction false} TargetsFromUrls(urls: seq<string>, secure: string -> string)
    ensures forall t :: t in Targets(urls, secure) ==> exists u :: u in urls && Target(u, secure) == Some(t)
  {
    if urls != [] {
      TargetsFromUrls(urls[..|urls| - 1], secure);
      assert forall u :: u in urls[..|urls| - 1] ==> u in urls;
    }
  }

  /** URLs outside the download folder ask for nothing. */
  lemma {:induction false} TargetsOnlyFromMarkedUrls(urls: seq<string>, secure: string -> string)
    requires forall i :: 0 <= i < |urls| ==> !Contains(urls[i], DownloadedImagesMarker)
    ensures Targets(urls, secure) == {}
  {
    if urls != [] {
      TargetsOnlyFromMarkedUrls(urls[..|urls| - 1], secure);
    }
  }

  /** At most one name per URL. */
  lemma {:induction false} TargetsBounded(urls: seq<string>, secure: string -> string)
    ensures |Targets(urls, secure)| <= |urls|
  {
    if urls != [] {
      TargetsBounded(urls[..|urls| - 1], secure);
    }
  }

  lemma DeleteOne(files: set<string>, before: set<string>, remaining: set<string>, safe: string)
    requires remaining == files - before
    ensures files - (before + {safe}) == remaining - {safe}
    ensures safe in remaining ==> |remaining - {safe}| == |remaining| - 1
    ensures safe !in remaining ==> remaining - {safe} == remaining
  {
  }

  /**
   * The loop over the URLs: each URL pointing into the download folder
   * whose sanitized name is an existing file deletes that file and counts it.
   */
  method DeleteEach(urls: seq<string>, secure: string -> string, files: set<string>)
    returns (deleted: nat, remaining: set<string>)
    ensures remaining == files - Targets(urls, secure)
    ensures deleted + |remaining| == |files|
    ensures deleted <= |urls|
  {
    deleted := 0;
    remaining := files;
    for k := 0 to |urls|
      invariant remaining == files - Targets(urls[..k], secure)
      invariant deleted + |remaining| == |files|
      invariant deleted <= k
    {
      TargetsStep(urls, k, secure);
      ghost var before := Targets(urls[..k], secure);
      var url := urls[k];
      TargetIsLastPiece(url, secure);
      if Contains(url, DownloadedImagesMarker) {
        var name := SplitLast(url, DownloadedImagesMarker);
        var safe := secure(name);
        DeleteOne(files, before, remaining, safe);
        if safe in remaining {
          remaining := remaining - {safe};
          deleted := deleted + 1;
        }
      }
    }
    assert urls[..|urls|] == urls;
  }

  /** The route: an empty list returns at once; otherwise every URL is tried and the count is reported. */
  method CleanupImages(urls: seq<string>, secure: string -> string, files: set<string>)
    returns (message: string, deleted: nat, remaining: set<string>)
    ensures urls == [] ==> message == NoUrlsMessage && deleted == 0 && remaining == files
    ensures urls != [] ==> message == CleanedMessage(deleted)
    ensures remaining == files - Targets(urls, secure)
    ensures deleted + |remaining| == |files|
    ensures deleted <= |urls|
  {
    if urls == [] {
      return NoUrlsMessage, 0, files;
    }
    deleted, remaining := DeleteEach(urls, secure, files);
    message := CleanedMessage(deleted);
  }
}
