/**
 * The storage helpers: the parse of a Cloudinary delivery URL into public
 * id, resource type and extension; the MIME lookup by extension; the
 * resource type and public id an upload is given; and the candidate public
 * ids that `file_exists` and `delete_file` try one after the other against
 * the Cloudinary API. The API calls are parameters: `remote(rt, pid)` is
 * true when the call for that id returns instead of raising.
 */
module Storage {
  import opened Wrappers
  import opened Text

  // ---------------------------------------------------------------- URL parse

  const UploadMarker := "/upload/"

  /** `(public_id_no_ext, resource_type, ext)`. */
  datatype CloudRef = CloudRef(publicId: string, resourceType: string, ext: Option<string>)

  /** `url.split('/upload/')[1]`: the text between the first marker and the next one, or the end. */
  function AfterMarker(url: string): (r: string)
    requires Contains(url, UploadMarker)
    ensures !Contains(r, UploadMarker)
  {
    var i := Find(url, UploadMarker);
    var rest := url[i + |UploadMarker|..];
    var j := Find(rest, UploadMarker);
    if j < 0 then rest
    else
      NoMarkerBeforeFirst(rest, j);
      rest[..j]
  }

  /** Text cut at the first occurrence of a pattern holds no occurrence of it. */
  lemma NoMarkerBeforeFirst(s: string, j: int)
    requires j == Find(s, UploadMarker) && j >= 0
    ensures !Contains(s[..j], UploadMarker)
  {
    forall k | 0 <= k <= j - |UploadMarker|
      ensures !OccursAt(s[..j], UploadMarker, k)
    {
      assert !OccursAt(s, UploadMarker, k);
      assert s[..j][k..k + |UploadMarker|] == s[k..k + |UploadMarker|];
    }
  }

  /** `before.rstrip('/').split('/')[-1]`. */
  function ResourceTypeOf(before: string): string
  {
    LastPart(RStripChar(before, '/'), '/')
  }

  /** `after.split('/', 1)[1]` when `after` starts with 'v' and holds a '/': the first segment is taken for a version. */
  function DropVersion(after: string): string
  {
    if StartsWith(after, "v") && '/' in after then after[FirstIndex(after, '/') + 1..] else after
  }

  /** `url.split('/upload/')[0]`. */
  function BeforeMarker(url: string): string
    requires Contains(url, UploadMarker)
  {
    url[..Find(url, UploadMarker)]
  }

  /** The public id and the lowered extension, split at the last '.' of the remainder. */
  function RefOf(rt: string, rem: string): (r: CloudRef)
    ensures r.resourceType == rt
  {
    if '.' in rem then
      var k := LastIndex(rem, '.');
      CloudRef(rem[..k], rt, Some(Lower(rem[k + 1..])))
    else CloudRef(rem, rt, None)
  }

  /** `_cloudinary_parse_url`. None of its steps can raise, so its `except` branch is never taken. */
  function ParseCloudinaryUrl(url: string): (r: CloudRef)
    ensures !Contains(url, UploadMarker) ==> r == CloudRef(url, "raw", None)
    ensures Contains(url, UploadMarker) ==> r.resourceType == ResourceTypeOf(BeforeMarker(url))
  {
    if !Contains(url, UploadMarker) then CloudRef(url, "raw", None)
    else RefOf(ResourceTypeOf(BeforeMarker(url)), DropVersion(AfterMarker(url)))
  }

  /** The last '/'-free segment of a text: a suffix of it preceded by '/', or the whole of it. */
  lemma LastSegment(b: string)
    ensures var seg := LastPart(b, '/');
      '/' !in seg && EndsWith(b, seg) && (|seg| == |b| || b[|b| - |seg| - 1] == '/')
  {
    LastPartAfterLastIndex(b, '/');
    var L := LastIndex(b, '/');
    var seg := b[L + 1..];
    forall k | 0 <= k < |seg|
      ensures seg[k] != '/'
    {
      assert seg[k] == b[L + 1 + k];
    }
  }

  /**
   * The resource type is the last '/'-free segment of the text before the
   * first marker, once its trailing slashes are stripped.
   */
  lemma ResourceTypeIsLastSegment(before: string)
    ensures var b := RStripChar(before, '/');
      var rt := ResourceTypeOf(before);
      '/' !in rt && EndsWith(b, rt) && (|rt| == |b| || b[|b| - |rt| - 1] == '/')
  {
    var b := RStripChar(before, '/');
    LastSegment(b);
    assert ResourceTypeOf(before) == LastPart(b, '/');
  }

  /**
   * The version step: when the remainder starts with 'v' and holds a '/',
   * exactly its first segment and that '/' are dropped; otherwise nothing is.
   */
  lemma DropVersionSpec(after: string)
    ensures var d := DropVersion(after);
      if StartsWith(after, "v") && '/' in after then
        exists seg :: after == seg + "/" + d && |seg| > 0 && seg[0] == 'v' && '/' !in seg
      else d == after
  {
    if StartsWith(after, "v") && '/' in after {
      FirstIndexAbsent(after, '/');
      var i := FirstIndex(after, '/');
      var seg := after[..i];
      assert after == seg + "/" + after[i + 1..];
      assert after[0] == 'v';
    }
  }

  /** Any first segment starting with 'v' counts as a version, a folder such as `videos` included. */
  lemma DropVersionTakesAnyV(folder: string, rest: string)
    requires |folder| > 0 && folder[0] == 'v' && '/' !in folder
    ensures DropVersion(folder + "/" + rest) == rest
  {
    var s := folder + "/" + rest;
    assert s[..1] == "v";
    assert s[|folder|] == '/';
    FirstIndexAt(s, '/', |folder|);
    assert s[|folder| + 1..] == rest;
  }

  /**
   * Public id and extension split the remainder at its last '.': the id,
   * a '.', and a dot-free extension give it back (the extension lowered in
   * the result); with no '.' the id is the whole remainder.
   */
  lemma ExtensionSplit(rt: string, rem: string)
    ensures var r := RefOf(rt, rem);
      (r.ext.None? <==> '.' !in rem) &&
      (r.ext.None? ==> r.publicId == rem) &&
      (r.ext.Some? ==>
        |r.publicId| < |rem| &&
        var e := rem[|r.publicId| + 1..];
        rem == r.publicId + "." + e && Lower(e) == r.ext.value && '.' !in e)
  {
    if '.' in rem {
      LastIndexPresent(rem, '.');
      var k := LastIndex(rem, '.');
      var e := rem[k + 1..];
      assert rem == rem[..k] + "." + e;
      forall j | 0 <= j < |e|
        ensures e[j] != '.'
      {
        assert e[j] == rem[k + 1 + j];
      }
    }
  }

  /** The parse of a marked URL: the remainder after the marker and the version is the id, '.', and the extension. */
  lemma ExtensionRoundTrip(url: string)
    requires Contains(url, UploadMarker)
    ensures var r := ParseCloudinaryUrl(url);
      var rem := DropVersion(AfterMarker(url));
      (r.ext.None? <==> '.' !in rem) &&
      (r.ext.None? ==> r.publicId == rem) &&
      (r.ext.Some? ==> |r.publicId| < |rem| && rem == r.publicId + "." + rem[|r.publicId| + 1..])
  {
    ExtensionSplit(ResourceTypeOf(BeforeMarker(url)), DropVersion(AfterMarker(url)));
  }

  // ---------------------------------------------------------------- MIME types

  const DefaultMime := "application/octet-stream"

  const MimeTypes: map<string, string> := map[
    "pdf" := "application/pdf",
    "png" := "image/png",
    "jpg" := "image/jpeg",
    "jpeg" := "image/jpeg",
    "gif" := "image/gif",
    "webp" := "image/webp",
    "bmp" := "image/bmp",
    "doc" := "application/msword",
    "docx" := "application/" + "vnd.openxmlformats-" + "officedocument." + "wordprocessingml.document",
    "xls" := "application/vnd.ms-excel",
    "xlsx" := "application/" + "vnd.openxmlformats-" + "officedocument." + "spreadsheetml.sheet",
    "txt" := "text/plain",
    "csv" := "text/csv"]

  /** `filename.lower().split('.')[-1] if '.' in filename else ''`. */
  function MimeExtension(filename: string): string
  {
    if '.' in filename then LastPart(Lower(filename), '.') else ""
  }

  /** `get_mime_type`. */
  function GetMimeType(filename: string): (r: string)
    ensures r == DefaultMime || r in MimeTypes.Values
  {
    var e := MimeExtension(filename);
    if e in MimeTypes then MimeTypes[e] else DefaultMime
  }

  /** The text after the last '.' of `stem.e` is `e` when `e` has no '.'. */
  lemma LastPartOfDotted(stem: string, e: string)
    requires '.' !in e
    ensures LastPart(stem + "." + e, '.') == e
  {
    var s := stem + "." + e;
    LastPartAfterLastIndex(s, '.');
    assert forall k :: |stem| < k < |s| ==> s[k] == e[k - |stem| - 1];
    LastIndexUnique(s, '.', |stem|);
    assert s[|stem| + 1..] == e;
  }

  /**
   * The MIME type of `stem.e` (with no '.' in `e`) is the table entry for the
   * lowered `e`, and the default for an extension the table lacks.
   */
  lemma MimeOfExtension(stem: string, e: string)
    requires '.' !in e
    ensures GetMimeType(stem + "." + e) == if Lower(e) in MimeTypes then MimeTypes[Lower(e)] else DefaultMime
  {
    var s := stem + "." + e;
    assert s[|stem|] == '.';
    LowerConcat(stem + ".", e);
    LowerConcat(stem, ".");
    assert Lower(".") == ".";
    LowerKeepsChar(e, '.');
    LastPartOfDotted(Lower(stem), Lower(e));
  }

  /** A name without a '.' gets the default type. */
  lemma MimeWithoutDot(filename: string)
    requires '.' !in filename
    ensures GetMimeType(filename) == DefaultMime
  {
  }

  /** The lookup ignores the case of the name. */
  lemma MimeIgnoresCase(filename: string)
    ensures GetMimeType(Lower(filename)) == GetMimeType(filename)
  {
    LowerKeepsChar(filename, '.');
    LowerIdempotent(filename);
  }

  // ---------------------------------------------------------------- upload

  const ImageExtensions: set<string> := {"png", "jpg", "jpeg", "gif", "webp", "bmp"}

  /** `filename.lower().rsplit('.', 1)[-1] if '.' in filename else ''`. */
  function UploadExtension(filename: string): string
  {
    var low := Lower(filename);
    if '.' in filename then low[LastIndex(low, '.') + 1..] else ""
  }

  /** The `rsplit` of the upload and the `split` of the MIME lookup pick the same extension. */
  lemma ExtensionsAgree(filename: string)
    ensures UploadExtension(filename) == MimeExtension(filename)
  {
    LastPartAfterLastIndex(Lower(filename), '.');
  }

  /** `resource_type = 'image' if ext in image_exts else 'raw'`. */
  function UploadResourceType(filename: string): (r: string)
    ensures r == "image" <==> UploadExtension(filename) in ImageExtensions
    ensures r == "image" || r == "raw"
  {
    if UploadExtension(filename) in ImageExtensions then "image" else "raw"
  }

  /** The table's image types are exactly the image extensions of the upload. */
  lemma ImageEntries(e: string)
    ensures e in MimeTypes && StartsWith(MimeTypes[e], "image/") <==> e in ImageExtensions
  {
    if e in ImageExtensions {
      var m := MimeTypes[e];
      if e == "png" {
        assert m == "image/png";
      } else if e == "jpg" || e == "jpeg" {
        assert m == "image/jpeg";
      } else if e == "gif" {
        assert m == "image/gif";
      } else if e == "webp" {
        assert m == "image/webp";
      } else {
        assert m == "image/bmp";
      }
      assert m[..6] == "image/";
    } else if e in MimeTypes {
      var m := MimeTypes[e];
      if e == "pdf" {
        assert m == "application/pdf" && m[0] == 'a';
      } else if e == "doc" {
        assert m == "application/msword" && m[0] == 'a';
      } else if e == "docx" {
        assert m == "application/" + "vnd.openxmlformats-" + "officedocument." + "wordprocessingml.document" && m[0] == 'a';
      } else if e == "xls" {
        assert m == "application/vnd.ms-excel" && m[0] == 'a';
      } else if e == "xlsx" {
        assert m == "application/" + "vnd.openxmlformats-" + "officedocument." + "spreadsheetml.sheet" && m[0] == 'a';
      } else if e == "txt" {
        assert m == "text/plain" && m[0] == 't';
      } else {
        assert e == "csv";
        assert m == "text/csv" && m[0] == 't';
      }
      assert m[0] != 'i';
    }
  }

  /** A file is uploaded as an image exactly when its MIME type is an image type. */
  lemma ImageUploadIffImageMime(filename: string)
    ensures UploadResourceType(filename) == "image" <==> StartsWith(GetMimeType(filename), "image/")
  {
    ExtensionsAgree(filename);
    ImageEntries(MimeExtension(filename));
    assert DefaultMime[0] != 'i';
  }

  /** What the SDK's `upload` call did: raised with a message, or returned `secure_url` and `url`. */
  datatype SdkUpload = SdkRaised(message: string) | SdkReturned(secureUrl: Option<string>, url: Option<string>)

  /** The dict `upload_file` returns. */
  datatype UploadResult = Uploaded(url: Option<string>, publicId: string, resourceType: string) | UploadError(error: string)

  const NotConfiguredError := "Cloudinary is not configured on this environment; uploads are required to go to Cloudinary."

  /** Python's `a or b` on optional strings. */
  function OrElse(a: Option<string>, b: Option<string>): (r: Option<string>)
    ensures r == a || r == b
    ensures a.Some? && a.value != "" <==> r == a && r.Some? && r.value != ""
  {
    if a.Some? && a.value != "" then a else b
  }

  /**
   * `upload_file`. Without Cloudinary configured the upload is refused with
   * the fixed message and never stored anywhere else; a successful upload
   * is stored under `folder/filename` with the resource type of its name.
   */
  function UploadFile(configured: bool, sdk: SdkUpload, filename: string, folder: string): (r: UploadResult)
    ensures !configured ==> r == UploadError(NotConfiguredError)
    ensures r.Uploaded? <==> configured && sdk.SdkReturned?
    ensures configured && sdk.SdkRaised? ==> r == UploadError(sdk.message)
    ensures r.Uploaded? ==>
      r.publicId == folder + "/" + filename && r.resourceType == UploadResourceType(filename) &&
      r.url == OrElse(sdk.secureUrl, sdk.url)
  {
    if !configured then UploadError(NotConfiguredError)
    else match sdk
      case SdkRaised(m) => UploadError(m)
      case SdkReturned(secure, plain) => Uploaded(OrElse(secure, plain), folder + "/" + filename, UploadResourceType(filename))
  }

  // ---------------------------------------------------------------- candidates

  /** The ids tried for an upload record: the id without its last extension, then the id twice. */
  function RecordIds(publicId: string): (ids: seq<string>)
    ensures |ids| > 0 && publicId in ids
  {
    if '.' in publicId then [publicId[..LastIndex(publicId, '.')], publicId, publicId] else [publicId]
  }

  /** The ids tried for a parsed URL: the id with its extension, then the bare id twice. */
  function UrlIds(r: CloudRef): (ids: seq<string>)
    ensures |ids| > 0 && r.publicId in ids
  {
    if r.ext.Some? && r.ext.value != "" then [r.publicId + "." + r.ext.value, r.publicId, r.publicId] else [r.publicId]
  }

  /** Every id tried for an upload record is the record's id or that id cut before its last extension. */
  lemma RecordIdsAreStems(publicId: string)
    ensures var ids := RecordIds(publicId);
      forall k :: 0 <= k < |ids| ==> ids[k] == publicId || ('.' in publicId && ids[k] + "." + LastPart(publicId, '.') == publicId)
  {
    if '.' in publicId {
      LastIndexPresent(publicId, '.');
      LastPartAfterLastIndex(publicId, '.');
      var L := LastIndex(publicId, '.');
      assert publicId == publicId[..L] + "." + publicId[L + 1..];
    }
  }

  /** The list built in place for an upload record (`candidates.insert(0, no_ext)`, `candidates.append(public_id)`). */
  method RecordCandidates(publicId: string) returns (cands: seq<string>)
    ensures cands == RecordIds(publicId)
  {
    cands := [publicId];
    if '.' in publicId {
      var parts := Split(publicId, '.');
      var noExt := Join(parts[..|parts| - 1], ".");
      StemBeforeLastIndex(publicId, '.');
      cands := [noExt] + cands;
      cands := cands + [publicId];
    }
  }

  /** The list built in place for a URL: the id with the extension put in front when the extension is not empty. */
  method UrlCandidates(r: CloudRef) returns (cands: seq<string>)
    ensures cands == UrlIds(r)
  {
    cands := [r.publicId];
    if r.ext.Some? && r.ext.value != "" {
      cands := [r.publicId + "." + r.ext.value] + cands;
      cands := cands + [r.publicId];
    }
  }

  /** The `for pid in candidates: try … return True / except: continue` loop: the first id the call accepts. */
  method FirstAccepted(cands: seq<string>, rt: string, remote: (string, string) -> bool) returns (hit: Option<nat>)
    ensures hit.Some? ==>
      hit.value < |cands| && remote(rt, cands[hit.value]) &&
      forall k :: 0 <= k < hit.value ==> !remote(rt, cands[k])
    ensures hit.None? <==> forall k :: 0 <= k < |cands| ==> !remote(rt, cands[k])
  {
    var i := 0;
    while i < |cands|
      invariant 0 <= i <= |cands|
      invariant forall k :: 0 <= k < i ==> !remote(rt, cands[k])
    {
      if remote(rt, cands[i]) {
        return Some(i);
      }
      i := i + 1;
    }
    return None;
  }

  /** What `file_exists` and `delete_file` are handed: the dict `upload_file` returned, or a URL or file name. */
  datatype StoredFile = UploadRecord(publicId: string, resourceType: Option<string>) | StoredName(name: string)

  predicate IsCloudUrl(f: StoredFile, cloudinary: bool)
  {
    f.StoredName? && StartsWith(f.name, "http") && cloudinary
  }

  /**
   * `file_exists`. An upload record is looked up by its candidate ids even
   * when Cloudinary is not configured, in which case every lookup raises and
   * the answer is false; a URL is parsed first; anything else is a local file.
   */
  method FileExists(f: StoredFile, cloudinary: bool, remote: (string, string) -> bool, localExists: string -> bool)
    returns (b: bool)
    ensures f.UploadRecord? ==>
      (b <==> cloudinary && exists k :: 0 <= k < |RecordIds(f.publicId)| && remote(f.resourceType.GetOr("raw"), RecordIds(f.publicId)[k]))
    ensures IsCloudUrl(f, cloudinary) ==> var r := ParseCloudinaryUrl(f.name);
      (b <==> exists k :: 0 <= k < |UrlIds(r)| && remote(r.resourceType, UrlIds(r)[k]))
    ensures f.StoredName? && !IsCloudUrl(f, cloudinary) ==> b == localExists(f.name)
  {
    var lookup := (rt: string, pid: string) => cloudinary && remote(rt, pid);
    if f.UploadRecord? {
      var cands := RecordCandidates(f.publicId);
      var hit := FirstAccepted(cands, f.resourceType.GetOr("raw"), lookup);
      return hit.Some?;
    }
    if IsCloudUrl(f, cloudinary) {
      var r := ParseCloudinaryUrl(f.name);
      var cands := UrlCandidates(r);
      var hit := FirstAccepted(cands, r.resourceType, lookup);
      return hit.Some?;
    }
    b := localExists(f.name);
  }

  /** `delete_file`: the first candidate whose destroy call returns wins; without Cloudinary a record deletes the local name ''. */
  method DeleteFile(f: StoredFile, cloudinary: bool, destroy: (string, string) -> bool, localDelete: string -> bool)
    returns (b: bool)
    ensures f.UploadRecord? && cloudinary ==>
      (b <==> exists k :: 0 <= k < |RecordIds(f.publicId)| && destroy(f.resourceType.GetOr("raw"), RecordIds(f.publicId)[k]))
    ensures IsCloudUrl(f, cloudinary) ==> var r := ParseCloudinaryUrl(f.name);
      (b <==> exists k :: 0 <= k < |UrlIds(r)| && destroy(r.resourceType, UrlIds(r)[k]))
    ensures f.UploadRecord? && !cloudinary ==> b == localDelete("")
    ensures f.StoredName? && !IsCloudUrl(f, cloudinary) ==> b == localDelete(f.name)
  {
    if f.UploadRecord? && cloudinary {
      var cands := RecordCandidates(f.publicId);
      var hit := FirstAccepted(cands, f.resourceType.GetOr("raw"), destroy);
      return hit.Some?;
    }
    if IsCloudUrl(f, cloudinary) {
      var r := ParseCloudinaryUrl(f.name);
      var cands := UrlCandidates(r);
      var hit := FirstAccepted(cands, r.resourceType, destroy);
      return hit.Some?;
    }
    b := localDelete(if f.StoredName? then f.name else "");
  }
}
