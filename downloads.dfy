/**
 * `/uploads/download_external?url=…`: a Cloudinary link is turned into a
 * download link by putting the `fl_attachment` flag right after its first
 * `/upload/` segment; every other non-empty URL is redirected to as it is.
 */
module Downloads {
  import opened Wrappers
  import opened Text
  import opened Urls

  const UploadSegment := "/upload/"
  const AttachmentFlag := "fl_attachment/"

  /** A 400, the 500 of a `ValueError` the route lets escape, or a redirect. */
  datatype Answer = Abort400 | Abort500 | RedirectTo(target: string)

  predicate OnCloudinary(url: string)
  {
    Contains(Netloc(url), "cloudinary.com")
  }

  /** `download_external`; the query argument is None when it is absent. */
  function DownloadExternal(url: Option<string>): (r: Answer)
    ensures r.Abort400? <==> url.None? || url.value == ""
    ensures r.Abort500? <==> url.Some? && url.value != "" && ParseRaises(url.value)
  {
    if url.None? || url.value == "" then Abort400
    else if ParseRaises(url.value) then Abort500
    else if OnCloudinary(url.value) && Contains(url.value, UploadSegment) then
      RedirectTo(ReplaceFirst(url.value, UploadSegment, UploadSegment + AttachmentFlag))
    else RedirectTo(url.value)
  }

  /** On a Cloudinary host the flag goes in right after the first `/upload/`, and nothing else changes. */
  lemma DownloadInsertsFlag(url: string)
    requires OnCloudinary(url) && Contains(url, UploadSegment) && !ParseRaises(url)
    ensures var i := Find(url, UploadSegment);
      0 <= i && i + |UploadSegment| <= |url| &&
      DownloadExternal(Some(url)) == RedirectTo(url[..i + |UploadSegment|] + AttachmentFlag + url[i + |UploadSegment|..])
  {
    ReplaceFirstInserts(url, UploadSegment, AttachmentFlag);
  }

  /** The host check only decides the rewrite: any other non-empty URL is redirected to unchanged. */
  lemma DownloadRedirectsAnywhere(url: string)
    requires url != "" && !ParseRaises(url) && !(OnCloudinary(url) && Contains(url, UploadSegment))
    ensures DownloadExternal(Some(url)) == RedirectTo(url)
  {
  }

  /** Where scheme, `//` and network location sit in a reassembled URL. */
  lemma UnsplitLayout(p: UrlParts)
    requires p.hasNetloc
    ensures var url := Unsplit(p); var sl := |SchemePart(p)|;
      sl + 2 + |p.netloc| <= |url| &&
      (forall k :: 0 <= k < sl ==> url[k] == SchemePart(p)[k]) &&
      url[sl] == '/' && url[sl + 1] == '/' &&
      forall k :: 0 <= k < |p.netloc| ==> url[sl + 2 + k] == p.netloc[k]
  {
    var rest := "//" + p.netloc + (p.path + p.tail);
    assert NetlocPart(p) + (p.path + p.tail) == rest;
    assert Unsplit(p) == SchemePart(p) + rest;
  }

  /** A scheme and its ':' contain no '/'. */
  lemma SchemePartNoSlash(p: UrlParts)
    requires WellFormed(p)
    ensures forall k :: 0 <= k < |SchemePart(p)| ==> SchemePart(p)[k] != '/'
  {
    if p.hasScheme {
      forall k | 0 <= k < |p.scheme|
        ensures SchemePart(p)[k] != '/'
      {
        assert SchemePart(p)[k] == p.scheme[k] && IsSchemeChar(p.scheme[k]);
      }
    }
  }

  /** One mismatching character rules an occurrence out. */
  lemma MismatchAt(s: string, pat: string, k: nat, j: nat)
    requires j < |pat| && k + j < |s| && s[k + j] != pat[j]
    ensures !OccursAt(s, pat, k)
  {
    if k + |pat| <= |s| {
      assert s[k..k + |pat|][j] != pat[j];
    }
  }

  /** `/upload/` cannot start in a stretch made of slash-free text, `//` and a slash-free host of 7 or more characters. */
  lemma NoUploadInHeader(url: string, sl: nat, host: nat)
    requires host >= 7 && sl + 2 + host <= |url|
    requires forall k :: 0 <= k < sl ==> url[k] != '/'
    requires url[sl] == '/' && url[sl + 1] == '/'
    requires forall k :: sl + 2 <= k < sl + 2 + host ==> url[k] != '/'
    ensures forall k :: 0 <= k < sl + 2 + host ==> !OccursAt(url, UploadSegment, k)
  {
    var pat := UploadSegment;
    assert pat[0] == '/' && pat[1] == 'u' && pat[7] == '/';
    forall k | 0 <= k < sl + 2 + host
      ensures !OccursAt(url, pat, k)
    {
      if k == sl {
        MismatchAt(url, pat, k, 1);
      } else if k == sl + 1 {
        MismatchAt(url, pat, k, 7);
      } else {
        MismatchAt(url, pat, k, 0);
      }
    }
  }

  /** Inside scheme and network location of a URL with a host of 7 or more characters, `/upload/` does not start. */
  lemma NoUploadBeforePath(p: UrlParts)
    requires WellFormed(p) && p.hasNetloc && |p.netloc| >= 7
    ensures forall k :: 0 <= k < |SchemePart(p)| + |NetlocPart(p)| ==> !OccursAt(Unsplit(p), UploadSegment, k)
  {
    var url := Unsplit(p);
    var sl := |SchemePart(p)|;
    UnsplitLayout(p);
    SchemePartNoSlash(p);
    forall k | sl + 2 <= k < sl + 2 + |p.netloc|
      ensures url[k] != '/'
    {
      assert url[k] == p.netloc[k - sl - 2] && p.netloc[k - sl - 2] in p.netloc;
    }
    NoUploadInHeader(url, sl, |p.netloc|);
  }

  /** Replacing a stretch of text that lies after a prefix leaves the prefix alone. */
  lemma SpliceAfterPrefix(pre: string, r: string, i: nat, m: nat, rep: string)
    requires |pre| <= i && i + m <= |pre| + |r|
    ensures (pre + r)[..i] + rep + (pre + r)[i + m..] == pre + (r[..i - |pre|] + rep + r[i - |pre| + m..])
  {
    var j := i - |pre|;
    assert (pre + r)[..i] == pre + r[..j];
    assert (pre + r)[i + m..] == r[j + m..];
  }

  lemma SlashStartNoScheme(s: string)
    requires |s| > 0 && s[0] == '/'
    ensures SchemeEnd(s) == -1
  {
  }

  /** Putting text into the path or query, after its first character or starting with '/', leaves the network location as it was. */
  lemma SpliceInPathKeepsNetloc(p: UrlParts, j: nat, m: nat, rep: string)
    requires WellFormed(p) && p.hasNetloc
    requires j + m <= |p.path + p.tail| && (j > 0 || (|rep| > 0 && rep[0] == '/'))
    ensures var r := p.path + p.tail;
      SplitClean(SchemePart(p) + (NetlocPart(p) + (r[..j] + rep + r[j + m..]))).netloc == p.netloc
  {
    var r := p.path + p.tail;
    var r2 := r[..j] + rep + r[j + m..];
    var pt := SplitPath(r2);
    var q := UrlParts(p.hasScheme, p.scheme, true, p.netloc, pt.0, pt.1);
    assert q.path + q.tail == r2;
    assert r2[0] == (if j > 0 then r[0] else rep[0]);
    assert r2[0] in {'/', '?', '#'};
    var rest := NetlocPart(q) + r2;
    assert rest[0] == '/';
    SlashStartNoScheme(rest);
    assert WellFormed(q);
    SplitUnsplit(q);
  }

  lemma CloudinaryHostIsLong(url: string)
    requires OnCloudinary(url)
    ensures SplitUrl(url).hasNetloc && |SplitUrl(url).netloc| >= 14
  {
    var n := SplitUrl(url).netloc;
    var j :| 0 <= j <= |n| - 14 && OccursAt(n, "cloudinary.com", j);
  }

  /** On a Cloudinary host every `/upload/` of the parsed text lies after the network location. */
  lemma UploadAfterNetloc(url: string)
    requires OnCloudinary(url)
    ensures var p := SplitUrl(url);
      forall k :: OccursAt(Sanitize(url), UploadSegment, k) ==> |SchemePart(p)| + |NetlocPart(p)| <= k
  {
    CloudinaryHostIsLong(url);
    NoUploadBeforePath(SplitUrl(url));
  }

  /** Text inserted after the network location of split text leaves the network location as it was. */
  lemma InsertAfterNetloc(s: string, p: UrlParts, at: nat, extra: string)
    requires WellFormed(p) && p.hasNetloc && s == Unsplit(p)
    requires |SchemePart(p)| + |NetlocPart(p)| < at <= |s|
    ensures SplitClean(s[..at] + extra + s[at..]).netloc == p.netloc
  {
    var pre := SchemePart(p) + NetlocPart(p);
    var r := p.path + p.tail;
    ConcatAssoc(SchemePart(p), NetlocPart(p), r);
    assert s == pre + r;
    SpliceAfterPrefix(pre, r, at, 0, extra);
    var r2 := r[..at - |pre|] + extra + r[at - |pre|..];
    ConcatAssoc(SchemePart(p), NetlocPart(p), r2);
    assert s[..at] + extra + s[at..] == SchemePart(p) + (NetlocPart(p) + r2);
    SpliceInPathKeepsNetloc(p, at - |pre|, 0, extra);
  }

  /**
   * Inserting the flag after an `/upload/` of the raw URL inserts it, in the
   * parsed text, after an `/upload/` that lies past the network location.
   */
  lemma FlagLandsInPath(url: string, i: nat)
    requires OnCloudinary(url) && OccursAt(url, UploadSegment, i)
    ensures var at := i + |UploadSegment|; var p := SplitUrl(url);
      LStripC0(url[..at]) != [] && |SchemePart(p)| + |NetlocPart(p)| < |Sanitize(url[..at])|
  {
    SegmentsClean();
    OccurrenceSanitized(url, UploadSegment, i);
    UploadAfterNetloc(url);
  }

  /** Neither the segment nor the flag holds a blank, a tab, a CR or an LF. */
  lemma SegmentsClean()
    ensures IsClean(UploadSegment)
    ensures forall k :: 0 <= k < |AttachmentFlag| ==> !IsUnsafe(AttachmentFlag[k])
  {
    assert forall k :: 0 <= k < |UploadSegment| ==> UploadSegment[k] > ' ';
  }

  /** Putting the flag right after an `/upload/` of a Cloudinary URL keeps the host the URL names. */
  lemma FlagKeepsHost(url: string, i: nat)
    requires OnCloudinary(url) && OccursAt(url, UploadSegment, i) && !ParseRaises(url)
    ensures var at := i + |UploadSegment|;
      Netloc(url[..at] + AttachmentFlag + url[at..]) == Netloc(url)
  {
    var at := i + |UploadSegment|;
    FlagLandsInPath(url, i);
    SegmentsClean();
    SanitizeInsert(url, at, AttachmentFlag);
    var n := |Sanitize(url[..at])|;
    var s := Sanitize(url);
    InsertAfterNetloc(s, SplitUrl(url), n, AttachmentFlag);
  }

  /** A Cloudinary URL with `/upload/` is redirected to its rewrite. */
  lemma CloudinaryRewrite(url: string)
    requires url != "" && OnCloudinary(url) && Contains(url, UploadSegment) && !ParseRaises(url)
    ensures DownloadExternal(Some(url)) == RedirectTo(ReplaceFirst(url, UploadSegment, UploadSegment + AttachmentFlag))
  {
  }

  /** The rewrite of a Cloudinary URL keeps the host `urlparse` reads. */
  lemma RewriteKeepsHost(url: string)
    requires OnCloudinary(url) && Contains(url, UploadSegment) && !ParseRaises(url)
    ensures Netloc(ReplaceFirst(url, UploadSegment, UploadSegment + AttachmentFlag)) == Netloc(url)
  {
    ReplaceFirstInserts(url, UploadSegment, AttachmentFlag);
    FlagKeepsHost(url, Find(url, UploadSegment));
  }

  /** The redirect never leaves the host the URL named: the rewrite happens inside the path. */
  lemma DownloadKeepsHost(url: string)
    requires url != ""
    ensures DownloadExternal(Some(url)).Abort500? <==> ParseRaises(url)
    ensures !ParseRaises(url) ==> Netloc(DownloadExternal(Some(url)).target) == Netloc(url)
  {
    if ParseRaises(url) {
    } else if OnCloudinary(url) && Contains(url, UploadSegment) {
      CloudinaryRewrite(url);
      RewriteKeepsHost(url);
    } else {
      DownloadRedirectsAnywhere(url);
    }
  }
}
