/**
 * The pure rules of the HTTP routes: which attachment uploads are
 * allowed and what filetype they get, the mime type the `upload_file`
 * route reports, and the file name `cleanup_images` reads out of an image
 * URL. `secure_filename` and `uuid4` stay parameters; `os.path.splitext`
 * and the string splits are written out.
 */
module RouteRules {
  import opened Wrappers
  import opened Text

  const AllowedExtensions: set<string> := {"png", "jpg", "jpeg", "gif", "pdf"}
  const ImageExtensions: set<string> := {"png", "jpg", "jpeg", "gif"}

  // ------------------------------------------------------------ allowed_file

  /** `allowed_file`: a dot, and an allowed extension after the last dot, in any case. */
  function AllowedFile(filename: string): bool {
    '.' in filename && Lower(AfterLastDot(filename).value) in AllowedExtensions
  }

  /** `name` is `stem.ext` with no dot in `ext`. */
  predicate SplitsAs(name: string, stem: string, ext: string) {
    name == stem + "." + ext && '.' !in ext
  }

  /** Against a reference definition: an allowed name is exactly some `stem.ext` with an allowed `ext`. */
  lemma AllowedFileIff(name: string)
    ensures AllowedFile(name) <==>
      exists stem, ext :: SplitsAs(name, stem, ext) && Lower(ext) in AllowedExtensions
  {
    if AllowedFile(name) {
      var ext := AfterLastDot(name).value;
      assert SplitsAs(name, name[..|name| - |ext| - 1], ext);
    }
    if exists stem, ext :: SplitsAs(name, stem, ext) && Lower(ext) in AllowedExtensions {
      var stem, ext :| SplitsAs(name, stem, ext) && Lower(ext) in AllowedExtensions;
      assert name[|stem|] == '.';
      AfterLastDotOf(stem, ext);
    }
  }

  /** The extension is compared in lower case: `x.PDF` is allowed. */
  lemma AllowedFileIgnoresCase()
    ensures AllowedFile("x.PDF")
  {
    ExtensionOfLiteral("x", "PDF");
    assert "x" + "." + "PDF" == "x.PDF";
    LowerOfLiteral("PDF", "pdf");
  }

  /** Only the last extension counts: `x.pdf.exe` is refused. */
  lemma AllowedFileReadsLastExtension()
    ensures !AllowedFile("x.pdf.exe")
  {
    ExtensionOfLiteral("x.pdf", "exe");
    assert "x.pdf" + "." + "exe" == "x.pdf.exe";
    LowerOfLiteral("exe", "exe");
  }

  /** A name without a dot is refused, even when it spells an extension. */
  lemma AllowedFileNeedsDot()
    ensures !AllowedFile("pdf")
  {
    assert "pdf"[0] != '.' && "pdf"[1] != '.' && "pdf"[2] != '.';
  }

  lemma ExtensionOfLiteral(stem: string, ext: string)
    requires '.' !in ext
    ensures AfterLastDot(stem + "." + ext) == Some(ext)
  {
    AfterLastDotOf(stem, ext);
  }

  lemma LowerOfLiteral(s: string, t: string)
    requires |s| == |t| && forall i :: 0 <= i < |s| ==> LowerChar(s[i]) == t[i]
    ensures Lower(s) == t
  {
  }

  // ------------------------------------------------------------ the attachment's filetype

  datatype FileType = Image | Pdf

  /** An image extension gives an image; anything else is taken for a PDF. */
  function FiletypeOf(ext: string): FileType {
    if Lower(ext) in ImageExtensions then Image else Pdf
  }

  /** The stored file name: a fresh id followed by the extension of the sanitised name. */
  function StoredName(id: string, sanitized: string): string {
    id + SplitExt(sanitized)
  }

  /**
   * The filetype as the upload route computes it, from the stored name's
   * text after its last dot. `None` stands for the `IndexError` raised when
   * the stored name has no dot.
   */
  function StoredFiletype(storedName: string): (r: Option<FileType>)
    ensures r.None? <==> '.' !in storedName
    ensures r.Some? ==> r.value == FiletypeOf(AfterLastDot(storedName).value)
  {
    match AfterLastDot(storedName)
    case None => None
    case Some(ext) => Some(FiletypeOf(ext))
  }

  /**
   * An accepted name whose sanitised form has no extension: `secure_filename`
   * turns `.png` into `png`, so the stored name is the bare id and reading
   * its extension fails after the name passed `allowed_file`.
   */
  lemma LeadingDotUploadHasNoFiletype(id: string, secure: string -> string)
    requires '.' !in id
    requires secure(".png") == "png"
    ensures AllowedFile(".png")
    ensures StoredFiletype(StoredName(id, secure(".png"))).None?
  {
    AfterLastDotOf("", "png");
    assert "" + "." + "png" == ".png";
    assert Lower("png") == "png";
    assert "png"[0] != '.' && "png"[1] != '.' && "png"[2] != '.';
    assert StoredName(id, "png") == id + [];
  }

  /**
   * The filetype of an accepted upload, read from the extension that
   * `allowed_file` accepted: an image for png/jpg/jpeg/gif and a PDF
   * exactly for pdf, so no third filetype and no failure can arise.
   */
  function UploadFiletype(filename: string): (r: FileType)
    requires AllowedFile(filename)
    ensures r == Image <==> Lower(AfterLastDot(filename).value) in ImageExtensions
    ensures r == Pdf <==> Lower(AfterLastDot(filename).value) == "pdf"
  {
    FiletypeOf(AfterLastDot(filename).value)
  }

  /** Whenever the stored name keeps the accepted extension, both readings agree. */
  lemma StoredFiletypeAgrees(id: string, filename: string, sanitized: string)
    requires AllowedFile(filename) && '.' !in id
    requires SplitExt(sanitized) == "." + AfterLastDot(filename).value
    ensures StoredFiletype(StoredName(id, sanitized)) == Some(UploadFiletype(filename))
  {
    var ext := AfterLastDot(filename).value;
    StoredNameKeepsExtension(id, sanitized, ext);
    StoredFiletypeOfExtension(id, ext);
  }

  /**
   * For an ordinary sanitised name `stem.ext` (no separator, and a character
   * other than a dot in the stem) the extension survives into the stored
   * name, so both readings of the filetype agree; `photo.png` is one.
   */
  lemma StoredFiletypeOfPlainName(id: string, stem: string, ext: string)
    requires '.' !in id && '/' !in stem && '/' !in ext && '.' !in ext
    requires exists j :: 0 <= j < |stem| && stem[j] != '.'
    requires AllowedFile(stem + "." + ext)
    ensures SplitExt(stem + "." + ext) == "." + AfterLastDot(stem + "." + ext).value
    ensures StoredFiletype(StoredName(id, stem + "." + ext)) == Some(UploadFiletype(stem + "." + ext))
  {
    PlainNameKeepsExtension(stem, ext);
    StoredFiletypeAgrees(id, stem + "." + ext, stem + "." + ext);
  }

  lemma PlainNameKeepsExtension(stem: string, ext: string)
    requires '/' !in stem && '/' !in ext && '.' !in ext
    requires exists j :: 0 <= j < |stem| && stem[j] != '.'
    ensures AfterLastDot(stem + "." + ext) == Some(ext)
    ensures SplitExt(stem + "." + ext) == "." + ext
  {
    SplitExtOfName([], stem, ext);
    assert [] + stem + "." + ext == stem + "." + ext;
    AfterLastDotOf(stem, ext);
  }

  lemma StoredNameKeepsExtension(id: string, sanitized: string, ext: string)
    requires SplitExt(sanitized) == "." + ext
    ensures StoredName(id, sanitized) == id + "." + ext
  {
  }

  lemma StoredFiletypeOfExtension(id: string, ext: string)
    requires '.' !in ext
    ensures StoredFiletype(id + "." + ext) == Some(FiletypeOf(ext))
  {
    AfterLastDotOf(id, ext);
  }

  // ------------------------------------------------------------ upload_file

  /** What `upload_file` does with a file name: extract PDF text, inline an image, or refuse. */
  datatype UploadKind = PdfText | ImageData(mime: string) | InvalidType

  predicate EndsWith(s: string, suffix: string) {
    |suffix| <= |s| && s[|s| - |suffix|..] == suffix
  }

  const ImageSuffixes: seq<string> := [".jpg", ".jpeg", ".png", ".gif", ".webp", ".bmp"]
  const ImageMimes: set<string> := {"image/jpeg", "image/png", "image/gif", "image/webp", "image/bmp"}

  predicate HasImageSuffix(name: string) {
    exists i :: 0 <= i < |ImageSuffixes| && EndsWith(name, ImageSuffixes[i])
  }

  lemma AfterLastDotOfSuffix(name: string, ext: string)
    requires '.' !in ext && EndsWith(name, "." + ext)
    ensures AfterLastDot(name) == Some(ext)
  {
    var stem := name[..|name| - |ext| - 1];
    assert name == stem + "." + ext;
    AfterLastDotOf(stem, ext);
  }

  /** A name with one of the image suffixes has one of their extensions after its last dot. */
  lemma ImageSuffixExtension(name: string)
    requires HasImageSuffix(name)
    ensures AfterLastDot(name).Some?
    ensures AfterLastDot(name).value in {"jpg", "jpeg", "png", "gif", "webp", "bmp"}
  {
    var i :| 0 <= i < |ImageSuffixes| && EndsWith(name, ImageSuffixes[i]);
    ImageSuffixParts(i);
    AfterLastDotOfSuffix(name, ImageSuffixes[i][1..]);
  }

  lemma ImageSuffixParts(i: nat)
    requires i < |ImageSuffixes|
    ensures ImageSuffixes[i] == "." + ImageSuffixes[i][1..] && '.' !in ImageSuffixes[i][1..]
    ensures ImageSuffixes[i][1..] in {"jpg", "jpeg", "png", "gif", "webp", "bmp"}
  {
  }

  /**
   * The `upload_file` rule on the lower-cased name: `.pdf` first, then the
   * six image suffixes; the mime type is `image/` and the text after the
   * last dot, with `jpg` spelt `jpeg`.
   */
  function UploadKindOf(filename: string): (r: UploadKind)
    ensures r == PdfText <==> EndsWith(Lower(filename), ".pdf")
    ensures r.InvalidType? <==> !EndsWith(Lower(filename), ".pdf") && !HasImageSuffix(Lower(filename))
    ensures r.ImageData? ==>
      AfterLastDot(Lower(filename)).Some? && r.mime == MimeOf(AfterLastDot(Lower(filename)).value)
  {
    var name := Lower(filename);
    if EndsWith(name, ".pdf") then PdfText
    else if HasImageSuffix(name) then
      assert AfterLastDot(name).Some? by {
        ImageSuffixExtension(name);
      }
      var ext := AfterLastDot(name).value;
      ImageData(MimeOf(ext))
    else InvalidType
  }

  /** `image/` and the extension, with `jpg` spelt `jpeg`. */
  function MimeOf(ext: string): string {
    if ext == "jpg" then "image/jpeg" else "image/" + ext
  }

  lemma MimeOfImageExtension(ext: string)
    requires ext in {"jpg", "jpeg", "png", "gif", "webp", "bmp"}
    ensures MimeOf(ext) in ImageMimes
  {
    if ext == "jpeg" {
      assert "image/" + "jpeg" == "image/jpeg";
    } else if ext == "png" {
      assert "image/" + "png" == "image/png";
    } else if ext == "gif" {
      assert "image/" + "gif" == "image/gif";
    } else if ext == "webp" {
      assert "image/" + "webp" == "image/webp";
    } else if ext == "bmp" {
      assert "image/" + "bmp" == "image/bmp";
    }
  }

  /** Image mime types follow the extension, with `jpg` spelt `jpeg`; no other type arises. */
  lemma UploadKindMimeTypes(filename: string)
    ensures UploadKindOf(filename).ImageData? ==> UploadKindOf(filename).mime in ImageMimes
  {
    var name := Lower(filename);
    if UploadKindOf(filename).ImageData? {
      ImageSuffixExtension(name);
      MimeOfImageExtension(AfterLastDot(name).value);
    }
  }

  /** Upper-case `.JPG` is an image of type `image/jpeg`. */
  lemma UploadKindOfUpperCaseJpg()
    ensures UploadKindOf("Photo.JPG") == ImageData("image/jpeg")
  {
    LowerOfLiteral("Photo.JPG", "photo.jpg");
    assert EndsWith("photo.jpg", ImageSuffixes[0]);
    ExtensionOfLiteral("photo", "jpg");
    assert "photo" + "." + "jpg" == "photo.jpg";
  }

  /** `.jpeg` shares the `image/jpeg` type with `.jpg`. */
  lemma UploadKindOfJpeg()
    ensures UploadKindOf("scan.jpeg") == ImageData("image/jpeg")
  {
    LowerOfLiteral("scan.jpeg", "scan.jpeg");
    JpegNameIsImage();
    JpegNameExtension();
    UploadKindOfImageName("scan.jpeg", "jpeg");
    assert MimeOf("jpeg") == "image/jpeg";
  }

  lemma JpegNameIsImage()
    ensures !EndsWith("scan.jpeg", ".pdf") && HasImageSuffix("scan.jpeg")
  {
    assert "scan.jpeg"[8] != 'f';
    assert EndsWith("scan.jpeg", ImageSuffixes[1]);
  }

  lemma JpegNameExtension()
    ensures AfterLastDot("scan.jpeg") == Some("jpeg")
  {
    ExtensionOfLiteral("scan", "jpeg");
    assert "scan" + "." + "jpeg" == "scan.jpeg";
  }

  /** A name whose lower-cased form has an image suffix and no `.pdf` suffix is an image of its extension's type. */
  lemma UploadKindOfImageName(name: string, ext: string)
    requires !EndsWith(Lower(name), ".pdf") && HasImageSuffix(Lower(name))
    requires AfterLastDot(Lower(name)) == Some(ext)
    ensures UploadKindOf(name) == ImageData(MimeOf(ext))
  {
  }

  /** Other suffixes are refused. */
  lemma UploadKindOfVideo()
    ensures UploadKindOf("clip.mp4") == InvalidType
  {
    LowerOfLiteral("clip.mp4", "clip.mp4");
    forall i | 0 <= i < |ImageSuffixes|
      ensures !EndsWith("clip.mp4", ImageSuffixes[i])
    {
      assert ImageSuffixes[i][|ImageSuffixes[i]| - 1] != '4';
    }
  }

  // ------------------------------------------------------------ cleanup_images

  const DownloadedImagesMarker := "/api/downloaded_images/"

  /**
   * The file name `cleanup_images` reads from a URL: the last piece of
   * `url.split('/api/downloaded_images/')`, only for URLs containing it.
   */
  function DownloadedImageName(url: string): (r: Option<string>)
    ensures r.Some? <==> Contains(url, DownloadedImagesMarker)
  {
    if Contains(url, DownloadedImagesMarker) then Some(SplitLast(url, DownloadedImagesMarker)) else None
  }

  /** The name is the end of the URL, right after an occurrence of the marker, and holds no marker itself. */
  lemma DownloadedImageNameFollowsMarker(url: string)
    requires Contains(url, DownloadedImagesMarker)
    ensures var name := DownloadedImageName(url).value;
      && !Contains(name, DownloadedImagesMarker)
      && name == url[|url| - |name|..]
      && |name| + |DownloadedImagesMarker| <= |url|
      && At(url, DownloadedImagesMarker, |url| - |name| - |DownloadedImagesMarker|)
  {
    var name := SplitLast(url, DownloadedImagesMarker);
    SplitLastFollowsSeparator(url, DownloadedImagesMarker);
    SplitLastIsSuffix(url, DownloadedImagesMarker);
    SplitLastHasNoSeparator(url, DownloadedImagesMarker);
    FindIffContains(name, DownloadedImagesMarker);
  }
}
