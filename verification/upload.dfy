/**
 * The image upload endpoint as a decision: it rejects a request without a file,
 * with a content type that is not an image type, or with a file over the size
 * limit, in that order; an accepted file is stored under a fresh hexadecimal
 * name with the original's lower-cased extension and answered with its URL.
 * The fresh name is a parameter; writing the file is not modelled.
 */
module Upload {
  import opened Wrappers
  import opened JsText

  /**
   * The fallback of `getattr(settings, "FILE_UPLOAD_MAX_MEMORY_SIZE", …)`: 5 MB.
   * Django's settings object always defines that name, so the fallback is never
   * taken.
   */
  const FallbackMaxFileSize: nat := 5 * 1024 * 1024

  /** Django's global default of `FILE_UPLOAD_MAX_MEMORY_SIZE`: 2.5 MiB. */
  const DjangoMaxMemorySize: nat := 2621440

  const RelativeDir: string := "quiz_images"

  /**
   * The uploaded file: its name, its content type (`None` when absent) and its size.
   * A file whose name is empty is falsy in Django and counts as no file.
   */
  datatype UploadedFile = UploadedFile(name: string, contentType: Option<string>, size: nat)

  datatype UploadError = NoFile | NotAnImage | TooLarge(maxMb: nat)

  datatype UploadResult = Rejected(error: UploadError) | Stored(filename: string, url: string)

  /** Python's `round` of `n / d`: the nearest whole number, and the even one of two equally near. */
  function RoundDiv(n: nat, d: nat): (r: nat)
    requires d > 0
    ensures 2 * (r * d) <= 2 * n + d && 2 * n <= 2 * (r * d) + d
    ensures 2 * (n % d) == d ==> r % 2 == 0
  {
    var q := n / d;
    var rem := n % d;
    var r := if 2 * rem < d || (2 * rem == d && q % 2 == 0) then q else q + 1;
    RoundedNear(n, d, q, rem, r);
    r
  }

  /** Rounding the quotient `q` of `n = q * d + rem` by comparing twice the remainder with `d` lands within half of `d`, on the even side of a tie. */
  lemma RoundedNear(n: nat, d: nat, q: nat, rem: nat, r: nat)
    requires d > 0 && n == q * d + rem && rem < d
    requires r == if 2 * rem < d || (2 * rem == d && q % 2 == 0) then q else q + 1
    ensures 2 * (r * d) <= 2 * n + d && 2 * n <= 2 * (r * d) + d
    ensures 2 * rem == d ==> r % 2 == 0
  {
    assert (q + 1) * d == q * d + d;
  }

  /** `os.path.splitext(name)[1]`: from the last '.' after the last '/', unless only dots precede it in the final component. */
  function Extension(name: string): (ext: string)
    ensures ext == [] || (ext[0] == '.' && |ext| <= |name| && name[|name| - |ext|..] == ext)
    ensures forall k :: 1 <= k < |ext| ==> ext[k] != '.' && ext[k] != '/'
  {
    var dot := LastIndexOf(name, '.');
    var sep := LastIndexOf(name, '/');
    if dot > sep && exists k :: sep + 1 <= k < dot && name[k] != '.' then name[dot..] else []
  }

  /** The last position of `c` in `s`, or -1. */
  function LastIndexOf(s: string, c: char): (i: int)
    ensures -1 <= i < |s|
    ensures i >= 0 ==> s[i] == c
    ensures forall k :: i < k < |s| ==> s[k] != c
  {
    if |s| == 0 then -1
    else if s[|s| - 1] == c then |s| - 1
    else LastIndexOf(s[..|s| - 1], c)
  }

  /** The name up to the extension: `splitext(name)[0]`. */
  function Root(name: string): string {
    name[..|name| - |Extension(name)|]
  }

  /** Splitting off the extension loses nothing: root and extension put back together give the name. */
  lemma RootExtension(name: string)
    ensures Root(name) + Extension(name) == name
  {
    var ext := Extension(name);
    assert name == name[..|name| - |ext|] + name[|name| - |ext|..];
  }

  /** `s.rstrip("/")`: `s` without its trailing slashes. */
  function StripTrailingSlashes(s: string): (r: string)
    ensures |r| <= |s| && r == s[..|r|]
    ensures r == [] || r[|r| - 1] != '/'
    ensures forall k :: |r| <= k < |s| ==> s[k] == '/'
  {
    if |s| > 0 && s[|s| - 1] == '/' then StripTrailingSlashes(s[..|s| - 1]) else s
  }

  /**
   * `UploadImageView.post`: `hex` is the fresh name, `maxSize` the configured limit,
   * `mediaUrl` the media URL setting and `lower` Python's `str.lower`.
   */
  function UploadImage(file: Option<UploadedFile>, maxSize: nat, hex: string, mediaUrl: string, lower: string -> string): UploadResult {
    if file.None? || file.value.name == "" then Rejected(NoFile)
    else if !StartsWith(file.value.contentType.GetOr(""), "image/") then Rejected(NotAnImage)
    else if file.value.size > maxSize then Rejected(TooLarge(RoundDiv(maxSize, MiB)))
    else
      var filename := hex + lower(Extension(file.value.name));
      Stored(filename, StripTrailingSlashes(mediaUrl) + "/" + RelativeDir + "/" + filename)
  }

  /**
   * The request is rejected, in this order, for a missing file, a content type
   * that does not start with "image/" (no type counts as ''), and a size over the
   * limit; it is accepted exactly when none of these applies.
   */
  lemma UploadChecksInOrder(file: Option<UploadedFile>, maxSize: nat, hex: string, mediaUrl: string, lower: string -> string)
    ensures var r := UploadImage(file, maxSize, hex, mediaUrl, lower);
            && (r == Rejected(NoFile) <==> file.None? || file.value.name == "")
            && (r == Rejected(NotAnImage) <==> file.Some? && file.value.name != "" && !StartsWith(file.value.contentType.GetOr(""), "image/"))
            && (r.Rejected? && r.error.TooLarge? <==>
                  file.Some? && file.value.name != "" && StartsWith(file.value.contentType.GetOr(""), "image/") && file.value.size > maxSize)
            && (r.Stored? <==>
                  file.Some? && file.value.name != "" && StartsWith(file.value.contentType.GetOr(""), "image/") && file.value.size <= maxSize)
  {
  }

  /**
   * `url` is the media URL without its trailing slashes, then "/quiz_images/",
   * then `filename`.
   */
  ghost predicate UrlFor(mediaUrl: string, url: string, filename: string) {
    exists base, slashes ::
      && mediaUrl == base + slashes
      && (base == [] || base[|base| - 1] != '/')
      && (forall k :: 0 <= k < |slashes| ==> slashes[k] == '/')
      && url == base + "/quiz_images/" + filename
  }

  lemma StrippedUrl(mediaUrl: string, filename: string)
    ensures UrlFor(mediaUrl, StripTrailingSlashes(mediaUrl) + "/" + RelativeDir + "/" + filename, filename)
  {
    var base := StripTrailingSlashes(mediaUrl);
    var slashes := mediaUrl[|base|..];
    assert mediaUrl == base + slashes;
    assert forall k :: 0 <= k < |slashes| ==> slashes[k] == '/' by {
      forall k | 0 <= k < |slashes| ensures slashes[k] == '/' {
        assert slashes[k] == mediaUrl[|base| + k];
      }
    }
    assert base + "/" + RelativeDir + "/" + filename == base + "/quiz_images/" + filename;
  }

  /**
   * An accepted file is named by the fresh hex string followed by its lower-cased
   * extension, and its URL is the media URL without trailing slashes, then
   * "/quiz_images/", then that name.
   */
  lemma StoredNameAndUrl(f: UploadedFile, maxSize: nat, hex: string, mediaUrl: string, lower: string -> string)
    requires f.name != "" && StartsWith(f.contentType.GetOr(""), "image/") && f.size <= maxSize
    ensures var r := UploadImage(Some(f), maxSize, hex, mediaUrl, lower);
            && r.Stored?
            && r.filename == hex + lower(Extension(f.name))
            && UrlFor(mediaUrl, r.url, r.filename)
  {
    var filename := hex + lower(Extension(f.name));
    StrippedUrl(mediaUrl, filename);
  }

  const MiB: nat := 1024 * 1024

  /** A limit of a whole number of megabytes is named exactly in the size message; the 5 MB fallback would name 5. */
  lemma WholeMegabytesNamed(k: nat)
    ensures RoundDiv(k * MiB, MiB) == k
    ensures RoundDiv(FallbackMaxFileSize, MiB) == 5
  {
    var n := k * MiB;
    var q, m := n / MiB, n % MiB;
    assert n == q * MiB + m && 0 <= m < MiB;
    assert (k - q) * MiB == m;
    assert FallbackMaxFileSize == 5 * MiB;
  }

  /**
   * `UploadImageView.MAX_FILE_SIZE`: the project's setting when it sets one,
   * and otherwise Django's global default, which the settings object always
   * carries; the 5 MB fallback is not reached.
   */
  function MaxFileSize(projectSetting: Option<nat>): nat {
    projectSetting.GetOr(DjangoMaxMemorySize)
  }

  /**
   * Without a project setting the limit is 2.5 MiB and not the 5 MB fallback:
   * an image is refused exactly when it is larger than 2,621,440 bytes, and the
   * message rounds the limit half-way to even and names 2 MB.
   */
  lemma UnsetLimitNamedTwo(f: UploadedFile, hex: string, mediaUrl: string, lower: string -> string)
    requires f.name != "" && StartsWith(f.contentType.GetOr(""), "image/")
    ensures MaxFileSize(None) != FallbackMaxFileSize
    ensures var r := UploadImage(Some(f), MaxFileSize(None), hex, mediaUrl, lower);
            && (r.Rejected? <==> f.size > 2621440)
            && (r.Rejected? ==> r.error == TooLarge(2))
  {
    assert DjangoMaxMemorySize == 2 * MiB + MiB / 2;
    RoundedNear(DjangoMaxMemorySize, MiB, 2, MiB / 2, 2);
  }
}
