/**
 * The attachment routes of the `attachments` blueprint: the Cloudinary
 * public id read off the path of a raw delivery URL, the download that
 * redirects to a freshly built public URL for that id, and `make_public`
 * with its fallbacks and status codes. The Cloudinary SDK calls and the
 * lead lookup are parameters.
 */
module Attachments {
  import opened Wrappers
  import opened Text
  import opened Urls

  // ---------------------------------------------------------------- public id

  /** `parsed.path.lstrip('/').split('/')`. */
  function PathParts(url: string): (parts: seq<string>)
    ensures |parts| >= 1
  {
    Split(LStripChar(UrlPath(url), '/'), '/')
  }

  /** `parts.index(x, start)`: the first index at or after `start` holding `x`, None for the `ValueError`. */
  function IndexFrom(parts: seq<string>, x: string, start: nat): (r: Option<nat>)
    ensures r.Some? ==>
      start <= r.value < |parts| && parts[r.value] == x &&
      forall k :: start <= k < r.value ==> parts[k] != x
    ensures r.None? <==> forall k :: start <= k < |parts| ==> parts[k] != x
    decreases |parts| - start
  {
    if start >= |parts| then None
    else if parts[start] == x then Some(start)
    else IndexFrom(parts, x, start + 1)
  }

  /** Where the public id starts: after `upload`, and after one more segment when that one starts with 'v'. */
  function IdStart(parts: seq<string>, upload: nat): (s: nat)
    requires upload < |parts|
    ensures s <= |parts|
  {
    var start := upload + 1;
    if start < |parts| && StartsWith(parts[start], "v") then start + 1 else start
  }

  /** `public_with_ext.rsplit('.', 1)[0] if '.' in public_with_ext else public_with_ext`. */
  function StripExtension(s: string): string
  {
    if '.' in s then s[..LastIndex(s, '.')] else s
  }

  /** `_extract_cloudinary_public_id` on the path's segments. */
  function PublicIdOfParts(parts: seq<string>): Option<string>
  {
    match IndexFrom(parts, "raw", 0)
    case None => None
    case Some(raw) =>
      match IndexFrom(parts, "upload", raw)
      case None => None
      case Some(upload) => Some(StripExtension(Join(parts[IdStart(parts, upload)..], "/")))
  }

  /** `_extract_cloudinary_public_id`. */
  function ExtractPublicId(url: string): Option<string>
  {
    PublicIdOfParts(PathParts(url))
  }

  /** The id is missing exactly when no segment is `raw`, or no `upload` follows the first `raw`. */
  lemma PublicIdNoneIff(parts: seq<string>)
    ensures PublicIdOfParts(parts).None? <==>
      (forall k :: 0 <= k < |parts| ==> parts[k] != "raw") ||
      exists r :: 0 <= r < |parts| && parts[r] == "raw" && (forall k :: 0 <= k < r ==> parts[k] != "raw") &&
        forall k :: r <= k < |parts| ==> parts[k] != "upload"
  {
    var raw := IndexFrom(parts, "raw", 0);
    if raw.Some? {
      var r := raw.value;
      forall r' | 0 <= r' < |parts| && parts[r'] == "raw" && (forall k :: 0 <= k < r' ==> parts[k] != "raw")
        ensures r' == r
      {
      }
    }
  }

  /** Removing the extension and putting it back gives the joined segments. */
  lemma StripExtensionRoundTrip(s: string)
    ensures '.' !in s ==> StripExtension(s) == s
    ensures '.' in s ==> StripExtension(s) + "." + LastPart(s, '.') == s
    ensures '.' in s ==> '.' !in LastPart(s, '.')
  {
    if '.' in s {
      LastIndexPresent(s, '.');
      LastPartAfterLastIndex(s, '.');
      var L := LastIndex(s, '.');
      var e := s[L + 1..];
      assert s == s[..L] + "." + e;
      forall j | 0 <= j < |e|
        ensures e[j] != '.'
      {
        assert e[j] == s[L + 1 + j];
      }
    }
  }

  /**
   * A found id is the segments after `upload` (and after the segment after
   * it, when that one starts with 'v'), joined by '/' and cut before their
   * last '.'.
   */
  lemma PublicIdShape(parts: seq<string>)
    requires PublicIdOfParts(parts).Some?
    ensures exists upload ::
      0 <= upload < |parts| && parts[upload] == "upload" &&
      ('.' !in Join(parts[IdStart(parts, upload)..], "/") ==>
        PublicIdOfParts(parts).value == Join(parts[IdStart(parts, upload)..], "/")) &&
      ('.' in Join(parts[IdStart(parts, upload)..], "/") ==>
        PublicIdOfParts(parts).value + "." + LastPart(Join(parts[IdStart(parts, upload)..], "/"), '.') ==
          Join(parts[IdStart(parts, upload)..], "/"))
  {
    var raw := IndexFrom(parts, "raw", 0).value;
    var upload := IndexFrom(parts, "upload", raw).value;
    StripExtensionRoundTrip(Join(parts[IdStart(parts, upload)..], "/"));
  }

  /** Any segment right after `upload` that starts with 'v' is skipped as a version, a folder such as `videos` included. */
  lemma VersionSkipped(parts: seq<string>, upload: nat)
    requires upload + 1 < |parts| && parts[upload] == "upload"
    requires |parts[upload + 1]| > 0 && parts[upload + 1][0] == 'v'
    ensures IdStart(parts, upload) == upload + 2
  {
    assert parts[upload + 1][..1] == "v";
  }

  // ---------------------------------------------------------------- download

  /** The lead as the routes see it: its `attachment_url`, None for NULL. */
  datatype LeadRecord = LeadRecord(attachmentUrl: Option<string>)

  /** A 404, the 500 of the `ValueError` a malformed network location raises, or a redirect. */
  datatype DownloadAnswer = Abort404 | Abort500 | RedirectTo(target: string)

  const CloudinaryHost := "res.cloudinary.com"

  predicate HasAttachment(lead: Option<LeadRecord>)
  {
    lead.Some? && lead.value.attachmentUrl.Some? && lead.value.attachmentUrl.value != ""
  }

  predicate CloudinaryHosted(url: string)
  {
    Contains(Netloc(url), CloudinaryHost)
  }

  /**
   * `download_attachment`. `publicUrl(id)` stands for `cloudinary_url(id, …)`:
   * the URL it builds, or None when it raises.
   */
  function DownloadAttachment(lead: Option<LeadRecord>, publicUrl: string -> Option<string>): (r: DownloadAnswer)
    ensures r.Abort404? <==> !HasAttachment(lead)
    ensures r.Abort500? <==> HasAttachment(lead) && ParseRaises(lead.value.attachmentUrl.value)
    ensures r.RedirectTo? && !CloudinaryHosted(lead.value.attachmentUrl.value) ==> r.target == lead.value.attachmentUrl.value
  {
    if !HasAttachment(lead) then Abort404
    else
      var url := lead.value.attachmentUrl.value;
      DownloadStored(url, ParseRaises(url), CloudinaryHosted(url), ExtractPublicId(url), publicUrl)
  }

  /**
   * The handler past the lead lookup, for a stored URL whose parse raises or
   * not, which is Cloudinary-hosted or not, and whose extracted id is `pid`.
   */
  function DownloadStored(url: string, raises: bool, hosted: bool, pid: Option<string>,
                          publicUrl: string -> Option<string>): (r: DownloadAnswer)
    ensures r.Abort500? <==> raises
    ensures !r.Abort404?
    ensures r.RedirectTo? && !hosted ==> r.target == url
  {
    if raises then Abort500
    else if hosted then
      match pid
      case Some(id) =>
        if id == "" then RedirectTo(url)
        else (match publicUrl(id)
          case Some(u) => RedirectTo(u)
          case None => RedirectTo(url))
      case None => RedirectTo(url)
    else RedirectTo(url)
  }

  /** The stored URL is kept unless it is hosted with a non-empty id whose URL builds. */
  lemma DownloadStoredTarget(url: string, raises: bool, hosted: bool, pid: Option<string>,
                             publicUrl: string -> Option<string>)
    ensures DownloadStored(url, raises, hosted, pid, publicUrl) ==
      if raises then Abort500
      else if hosted && pid.Some? && pid.value != "" && publicUrl(pid.value).Some?
      then RedirectTo(publicUrl(pid.value).value)
      else RedirectTo(url)
  {
  }

  /**
   * The download goes to a URL built for the id read off a Cloudinary-hosted
   * attachment when there is a non-empty one and the build succeeds, and to
   * the stored URL in every other case.
   */
  lemma DownloadTarget(lead: Option<LeadRecord>, publicUrl: string -> Option<string>)
    requires HasAttachment(lead)
    ensures var url := lead.value.attachmentUrl.value;
      var pid := ExtractPublicId(url);
      DownloadAttachment(lead, publicUrl) ==
        if ParseRaises(url) then Abort500
        else if CloudinaryHosted(url) && pid.Some? && pid.value != "" && publicUrl(pid.value).Some?
        then RedirectTo(publicUrl(pid.value).value)
        else RedirectTo(url)
  {
    var url := lead.value.attachmentUrl.value;
    DownloadStoredTarget(url, ParseRaises(url), CloudinaryHosted(url), ExtractPublicId(url), publicUrl);
  }

  // ---------------------------------------------------------------- make public

  /** `uploader.explicit` followed by `cloudinary_url`: the built URL, or the message of the exception either raised. */
  datatype PublishAttempt = PublishedAt(url: string) | PublishRaised(error: string)

  /** The re-upload fallback: raised, or returned a response whose `secure_url` may be missing or empty. */
  datatype Reupload = ReuploadRaised | ReuploadReturned(secureUrl: Option<string>)

  /** Why `make_public` refused, each with its own status and message. */
  datatype Refusal = NoAttachment | NotCloudinary | NoPublicId | UntrustedAccount | ConversionFailed(error: string)

  /** The JSON answers of `make_public`, with the 404 of the lead lookup and the 500 of a `ValueError` from the parse. */
  datatype PublicReply = LeadAbort404 | ParseFailed | MadePublic(url: string) | Refused(reason: Refusal)

  const FailurePrefix := "Failed to make attachment public: "
  const UntrustedMark := "untrusted"
  const CustomerUntrustedMark := "show_original_customer_" + UntrustedMark

  /** The HTTP status of a refusal. */
  function Status(reason: Refusal): (code: int)
    ensures code == 400 <==> reason in {NoAttachment, NotCloudinary, NoPublicId}
    ensures code == 403 <==> reason == UntrustedAccount
    ensures code == 500 <==> reason.ConversionFailed?
  {
    match reason
    case UntrustedAccount => 403
    case ConversionFailed(_) => 500
    case _ => 400
  }

  /** The `message` of the JSON answer. */
  function Message(reason: Refusal): string
  {
    match reason
    case NoAttachment => "No attachment"
    case NotCloudinary => "Not a Cloudinary-hosted file"
    case NoPublicId => "Could not identify Cloudinary public id"
    case UntrustedAccount =>
      "Cloudinary blocked delivery " + "for this file because " + "your account is marked " + "as untrusted or restricted. "
        + "Contact Cloudinary support " + "or update the asset " + "from the Cloudinary console."
    case ConversionFailed(err) => FailurePrefix + err
  }

  /** A conversion failure reports the exception's own message after a fixed prefix. */
  lemma FailureMessageKeepsError(err: string)
    ensures StartsWith(Message(ConversionFailed(err)), FailurePrefix)
    ensures Message(ConversionFailed(err))[|FailurePrefix|..] == err
  {
  }

  /** `'untrusted' in err_msg.lower() or 'show_original_customer_untrusted' in err_msg.lower()`. */
  predicate Untrusted(err: string)
  {
    Contains(Lower(err), UntrustedMark) || Contains(Lower(err), CustomerUntrustedMark)
  }

  /** The refusal once both the conversion and the re-upload have failed. */
  function Failure(err: string): (r: Refusal)
    ensures r == UntrustedAccount || r == ConversionFailed(err)
  {
    if Untrusted(err) then UntrustedAccount else ConversionFailed(err)
  }

  /**
   * The `try` of `make_public` for a public id: the converted URL; failing
   * that, a non-empty URL from the re-upload; failing both, the refusal
   * the conversion's error calls for. `publish` is what `uploader.explicit`
   * and `cloudinary_url` did for the id, `reupload` what `uploader.upload`
   * of the stored URL did; the second is only looked at when the first raised.
   */
  function Publish(publish: PublishAttempt, reupload: Reupload): (r: PublicReply)
    ensures r.MadePublic? || (r.Refused? && Status(r.reason) != 400)
    ensures r.Refused? ==> r.reason.UntrustedAccount? || r.reason.ConversionFailed?
    ensures publish.PublishedAt? ==> r == MadePublic(publish.url)
    ensures publish.PublishRaised? ==>
      r == if reupload.ReuploadReturned? && reupload.secureUrl.Some? && reupload.secureUrl.value != ""
           then MadePublic(reupload.secureUrl.value)
           else Refused(if Contains(Lower(publish.error), UntrustedMark) then UntrustedAccount
                        else ConversionFailed(publish.error))
  {
    match publish
    case PublishedAt(u) => MadePublic(u)
    case PublishRaised(err) =>
      UntrustedIsOneTest(err);
      match reupload
      case ReuploadReturned(Some(secure)) =>
        if secure != "" then MadePublic(secure) else Refused(Failure(err))
      case _ => Refused(Failure(err))
  }

  /**
   * The checks of `make_public` on a stored URL, `raises` saying whether
   * `urlparse` raised on it and `hosted` whether it is on Cloudinary.
   */
  function PublicChecks(raises: bool, hosted: bool, pid: Option<string>, publish: PublishAttempt, reupload: Reupload): (r: PublicReply)
    ensures r != LeadAbort404 && r != Refused(NoAttachment)
    ensures r == ParseFailed <==> raises
    ensures r == Refused(NotCloudinary) <==> !raises && !hosted
    ensures r == Refused(NoPublicId) <==> !raises && hosted && (pid.None? || pid.value == "")
    ensures r.MadePublic? ==> !raises && hosted && pid.Some? && pid.value != ""
  {
    if raises then ParseFailed
    else if !hosted then Refused(NotCloudinary)
    else if pid.None? || pid.value == "" then Refused(NoPublicId)
    else Publish(publish, reupload)
  }

  /** `make_public` once the lead has an attachment URL, `pid` being what `_extract_cloudinary_public_id` made of it. */
  function MakePublicFor(url: string, pid: Option<string>, publish: PublishAttempt, reupload: Reupload): (r: PublicReply)
    ensures r != LeadAbort404 && r != Refused(NoAttachment)
    ensures r == ParseFailed <==> ParseRaises(url)
    ensures r == Refused(NotCloudinary) <==> !ParseRaises(url) && !CloudinaryHosted(url)
    ensures r == Refused(NoPublicId) <==> !ParseRaises(url) && CloudinaryHosted(url) && (pid.None? || pid.value == "")
    ensures r.MadePublic? ==> !ParseRaises(url) && CloudinaryHosted(url) && pid.Some? && pid.value != ""
  {
    PublicChecks(ParseRaises(url), CloudinaryHosted(url), pid, publish, reupload)
  }

  /** `make_public`. */
  function MakePublic(lead: Option<LeadRecord>, publish: PublishAttempt, reupload: Reupload): (r: PublicReply)
    ensures r == LeadAbort404 <==> lead.None?
    ensures r == Refused(NoAttachment) <==> lead.Some? && !HasAttachment(lead)
    ensures r == ParseFailed <==> HasAttachment(lead) && ParseRaises(lead.value.attachmentUrl.value)
  {
    if lead.None? then LeadAbort404
    else if !HasAttachment(lead) then Refused(NoAttachment)
    else
      var url := lead.value.attachmentUrl.value;
      MakePublicFor(url, ExtractPublicId(url), publish, reupload)
  }

  /** `show_original_customer_untrusted` holds `untrusted` from its 23rd character on. */
  lemma CustomerMarkHoldsMark(s: string)
    requires Contains(s, CustomerUntrustedMark)
    ensures Contains(s, UntrustedMark)
  {
    var n := |CustomerUntrustedMark|;
    var i :| 0 <= i <= |s| - n && OccursAt(s, CustomerUntrustedMark, i);
    assert s[i..i + n] == CustomerUntrustedMark;
    assert s[i + 23..i + n] == s[i..i + n][23..];
    assert CustomerUntrustedMark[23..] == UntrustedMark;
    assert OccursAt(s, UntrustedMark, i + 23);
  }

  /** The second half of the untrusted test is subsumed by the first. */
  lemma UntrustedIsOneTest(err: string)
    ensures Untrusted(err) <==> Contains(Lower(err), UntrustedMark)
  {
    if Contains(Lower(err), CustomerUntrustedMark) {
      CustomerMarkHoldsMark(Lower(err));
    }
  }

  /** A reply that makes the file public only ever comes from a Cloudinary-hosted attachment with an id. */
  lemma MadePublicNeedsId(lead: Option<LeadRecord>, publish: PublishAttempt, reupload: Reupload)
    requires MakePublic(lead, publish, reupload).MadePublic?
    ensures HasAttachment(lead) && !ParseRaises(lead.value.attachmentUrl.value)
    ensures CloudinaryHosted(lead.value.attachmentUrl.value)
    ensures var pid := ExtractPublicId(lead.value.attachmentUrl.value); pid.Some? && pid.value != ""
  {
  }
}
