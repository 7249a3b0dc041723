/**
 * Python's `urllib.parse.urlsplit` and `urlparse` as far as the attachment
 * routes use them: leading C0 controls and spaces are stripped and every tab,
 * CR and LF removed; then come the scheme before the first ':', the network
 * location after '//', the path up to the query or fragment, and the rest;
 * `urlparse` then cuts the `;params` off the path.
 */
module Urls {
  import opened Text

  predicate IsSchemeChar(c: char)
  {
    IsLetter(c) || IsDigitChar(c) || c == '+' || c == '-' || c == '.'
  }

  /** Index of the first character of `s` at or after `start` that is in `cs`; `|s|` when there is none. */
  function FirstOfAny(s: string, cs: set<char>, start: nat): (i: nat)
    requires start <= |s|
    ensures start <= i <= |s|
    ensures i < |s| ==> s[i] in cs
    ensures forall k :: start <= k < i ==> s[k] !in cs
    decreases |s| - start
  {
    if start == |s| then |s|
    else if s[start] in cs then start
    else FirstOfAny(s, cs, start + 1)
  }

  /** The ':' that ends a scheme: after at least one character, the first of them a letter, all scheme characters. */
  function SchemeEnd(url: string): (i: int)
    ensures i == -1 || (0 < i < |url| && url[i] == ':')
    ensures i > 0 ==> IsLetter(url[0]) && forall k :: 0 <= k < i ==> url[k] != ':' && IsSchemeChar(url[k])
  {
    var i := FirstIndex(url, ':');
    if 0 < i < |url| && IsLetter(url[0]) && (forall k :: 0 <= k < i ==> IsSchemeChar(url[k])) then i else -1
  }

  /** The scheme, when there is one, and the text after its ':'. */
  function SplitScheme(url: string): (r: (bool, string, string))
    ensures (if r.0 then r.1 + ":" else "") + r.2 == url
    ensures r.0 ==> ValidScheme(r.1)
    ensures !r.0 ==> r.1 == "" && r.2 == url && SchemeEnd(url) == -1
  {
    var i := SchemeEnd(url);
    if i > 0 then
      assert url == url[..i] + ":" + url[i + 1..];
      assert forall k :: 0 <= k < i ==> url[..i][k] == url[k];
      (true, url[..i], url[i + 1..])
    else (false, "", url)
  }

  datatype UrlParts = UrlParts(hasScheme: bool, scheme: string, hasNetloc: bool, netloc: string, path: string, tail: string)

  function SchemePart(p: UrlParts): string
  {
    if p.hasScheme then p.scheme + ":" else ""
  }

  function NetlocPart(p: UrlParts): string
  {
    if p.hasNetloc then "//" + p.netloc else ""
  }

  /** Puts the parts back together. */
  function Unsplit(p: UrlParts): string
  {
    SchemePart(p) + (NetlocPart(p) + (p.path + p.tail))
  }

  predicate ValidScheme(s: string)
  {
    |s| > 0 && IsLetter(s[0]) && forall k :: 0 <= k < |s| ==> IsSchemeChar(s[k])
  }

  /** The parts `urlsplit` can produce. */
  predicate WellFormed(p: UrlParts)
  {
    (p.hasScheme ==> ValidScheme(p.scheme)) &&
    (!p.hasScheme ==> p.scheme == "" && SchemeEnd(NetlocPart(p) + (p.path + p.tail)) == -1) &&
    (forall c :: c in p.netloc ==> c != '/' && c != '?' && c != '#') &&
    (!p.hasNetloc ==> p.netloc == "" && !StartsWith(p.path + p.tail, "//")) &&
    (p.hasNetloc ==> |p.path + p.tail| == 0 || (p.path + p.tail)[0] in {'/', '?', '#'}) &&
    (forall c :: c in p.path ==> c != '?' && c != '#') &&
    (p.tail == [] || p.tail[0] == '?' || p.tail[0] == '#')
  }

  /** The path up to the first '?' or '#', and the query and fragment after it. */
  function SplitPath(s: string): (r: (string, string))
    ensures r.0 + r.1 == s
    ensures forall c :: c in r.0 ==> c != '?' && c != '#'
    ensures r.1 == [] || r.1[0] == '?' || r.1[0] == '#'
  {
    var q := FirstOfAny(s, {'?', '#'}, 0);
    assert s == s[..q] + s[q..];
    (s[..q], s[q..])
  }

  /** After the scheme: the network location when the text starts with '//', up to the next '/', '?' or '#'. */
  function SplitNetloc(rest: string): (r: (bool, string, string))
    ensures (if r.0 then "//" + r.1 else "") + r.2 == rest
    ensures !r.0 ==> r.1 == "" && r.2 == rest && !StartsWith(rest, "//")
    ensures forall c :: c in r.1 ==> c != '/' && c != '?' && c != '#'
    ensures r.0 ==> |r.2| == 0 || r.2[0] in {'/', '?', '#'}
  {
    if |rest| >= 2 && rest[..2] == "//" then
      var e := FirstOfAny(rest, {'/', '?', '#'}, 2);
      assert rest == "//" + rest[2..e] + rest[e..];
      (true, rest[2..e], rest[e..])
    else (false, "", rest)
  }

  /** The three splits reassemble the URL. */
  lemma AssembleUnsplit(url: string, sc: (bool, string, string), n: (bool, string, string), pt: (string, string))
    requires sc == SplitScheme(url) && n == SplitNetloc(sc.2) && pt == SplitPath(n.2)
    ensures Unsplit(UrlParts(sc.0, sc.1, n.0, n.1, pt.0, pt.1)) == url
  {
    var p := UrlParts(sc.0, sc.1, n.0, n.1, pt.0, pt.1);
    assert p.path + p.tail == n.2;
    assert NetlocPart(p) + (p.path + p.tail) == sc.2;
    assert SchemePart(p) + sc.2 == url;
  }

  /** The three splits give parts `urlsplit` can produce. */
  lemma AssembleWellFormed(url: string, sc: (bool, string, string), n: (bool, string, string), pt: (string, string))
    requires sc == SplitScheme(url) && n == SplitNetloc(sc.2) && pt == SplitPath(n.2)
    ensures WellFormed(UrlParts(sc.0, sc.1, n.0, n.1, pt.0, pt.1))
  {
    var p := UrlParts(sc.0, sc.1, n.0, n.1, pt.0, pt.1);
    assert p.path + p.tail == n.2;
    NetlocClauses(sc.2, p);
    assert NetlocPart(p) + (p.path + p.tail) == sc.2;
  }

  /** The network-location and path clauses of `WellFormed` for a split of the text after the scheme. */
  lemma NetlocClauses(rest: string, p: UrlParts)
    requires (p.hasNetloc, p.netloc, p.path + p.tail) == SplitNetloc(rest)
    requires (p.path, p.tail) == SplitPath(p.path + p.tail)
    ensures NetlocPart(p) + (p.path + p.tail) == rest
    ensures forall c :: c in p.netloc ==> c != '/' && c != '?' && c != '#'
    ensures !p.hasNetloc ==> p.netloc == "" && !StartsWith(p.path + p.tail, "//")
    ensures p.hasNetloc ==> |p.path + p.tail| == 0 || (p.path + p.tail)[0] in {'/', '?', '#'}
    ensures forall c :: c in p.path ==> c != '?' && c != '#'
    ensures p.tail == [] || p.tail[0] == '?' || p.tail[0] == '#'
  {
  }

  /** The split of text already sanitized; the scheme is kept as written (Python lowers it) so that the parts reassemble the text. */
  function SplitClean(url: string): (p: UrlParts)
    ensures Unsplit(p) == url
    ensures WellFormed(p)
  {
    var sc := SplitScheme(url);
    var n := SplitNetloc(sc.2);
    var pt := SplitPath(n.2);
    AssembleUnsplit(url, sc, n, pt);
    AssembleWellFormed(url, sc, n, pt);
    UrlParts(sc.0, sc.1, n.0, n.1, pt.0, pt.1)
  }

  /** The characters `urlsplit` strips from the start of a URL: the C0 controls and space. */
  predicate IsC0OrSpace(c: char)
  {
    c <= ' '
  }

  /** The characters `urlsplit` deletes wherever they are: tab, carriage return and line feed. */
  predicate IsUnsafe(c: char)
  {
    c == '\t' || c == '\r' || c == '\n'
  }

  /** `s.lstrip` of the C0 controls and space. */
  function LStripC0(s: string): (r: string)
    ensures |r| <= |s|
    ensures r == [] || !IsC0OrSpace(r[0])
    decreases |s|
  {
    if |s| > 0 && IsC0OrSpace(s[0]) then LStripC0(s[1..]) else s
  }

  /** What the strip removes is a run of blanks, and what it keeps is the rest of the text. */
  lemma {:induction false} LStripC0Suffix(s: string)
    ensures LStripC0(s) == s[|s| - |LStripC0(s)|..]
    ensures forall k :: 0 <= k < |s| - |LStripC0(s)| ==> IsC0OrSpace(s[k])
    decreases |s|
  {
    if |s| > 0 && IsC0OrSpace(s[0]) {
      LStripC0Suffix(s[1..]);
    }
  }

  /** Every tab, CR and LF deleted. */
  function RemoveUnsafe(s: string): (r: string)
    ensures |r| <= |s|
    ensures forall k :: 0 <= k < |r| ==> !IsUnsafe(r[k])
  {
    if |s| == 0 then ""
    else (if IsUnsafe(s[0]) then "" else [s[0]]) + RemoveUnsafe(s[1..])
  }

  /** Removal keeps every other character. */
  lemma {:induction false} RemoveUnsafeKeeps(s: string, c: char)
    requires !IsUnsafe(c)
    ensures c in RemoveUnsafe(s) <==> c in s
    decreases |s|
  {
    if |s| > 0 {
      RemoveUnsafeKeeps(s[1..], c);
      assert s == [s[0]] + s[1..];
    }
  }

  /** Text with no tab, CR or LF is left as it is. */
  lemma {:induction false} RemoveUnsafeOfSafe(s: string)
    requires forall k :: 0 <= k < |s| ==> !IsUnsafe(s[k])
    ensures RemoveUnsafe(s) == s
    decreases |s|
  {
    if |s| > 0 {
      RemoveUnsafeOfSafe(s[1..]);
      assert s == [s[0]] + s[1..];
    }
  }

  lemma {:induction false} RemoveUnsafeConcat(a: string, b: string)
    ensures RemoveUnsafe(a + b) == RemoveUnsafe(a) + RemoveUnsafe(b)
    decreases |a|
  {
    if |a| > 0 {
      assert (a + b)[0] == a[0] && (a + b)[1..] == a[1..] + b;
      RemoveUnsafeConcat(a[1..], b);
    } else {
      assert a + b == b;
    }
  }

  /** What `urlsplit` parses: the URL with leading C0 controls and spaces stripped, then every tab, CR and LF removed. */
  function Sanitize(url: string): string
  {
    RemoveUnsafe(LStripC0(url))
  }

  /** Text that `urlsplit` parses as it is. */
  predicate IsClean(s: string)
  {
    (s == [] || !IsC0OrSpace(s[0])) && forall k :: 0 <= k < |s| ==> !IsUnsafe(s[k])
  }

  lemma SanitizeIsClean(url: string)
    ensures IsClean(Sanitize(url))
  {
    var s := LStripC0(url);
    if |s| > 0 {
      assert !IsUnsafe(s[0]);
      assert RemoveUnsafe(s) == [s[0]] + RemoveUnsafe(s[1..]);
    }
  }

  lemma CleanUnchanged(s: string)
    requires IsClean(s)
    ensures Sanitize(s) == s
  {
    RemoveUnsafeOfSafe(s);
  }

  /** Text after a part that holds a non-blank character is only cleaned of tabs, CRs and LFs. */
  lemma {:induction false} SanitizeConcat(a: string, b: string)
    requires LStripC0(a) != []
    ensures Sanitize(a + b) == Sanitize(a) + RemoveUnsafe(b)
    decreases |a|
  {
    if IsC0OrSpace(a[0]) {
      assert (a + b)[1..] == a[1..] + b;
      SanitizeConcat(a[1..], b);
    } else {
      RemoveUnsafeConcat(a, b);
    }
  }

  /** Leading C0 controls and spaces do not change the parse. */
  lemma {:induction false} LeadingBlanksIgnored(pre: string, url: string)
    requires forall k :: 0 <= k < |pre| ==> IsC0OrSpace(pre[k])
    ensures LStripC0(pre + url) == LStripC0(url)
    ensures Sanitize(pre + url) == Sanitize(url)
    decreases |pre|
  {
    if |pre| > 0 {
      assert (pre + url)[1..] == pre[1..] + url;
      LeadingBlanksIgnored(pre[1..], url);
    } else {
      assert pre + url == url;
    }
  }

  /** A clean, non-empty text ends the sanitized text of anything it follows, and leaves nothing to strip before what follows it. */
  lemma SanitizedEndsWith(x: string, pat: string)
    requires pat != [] && IsClean(pat)
    ensures LStripC0(x + pat) != []
    ensures |pat| <= |Sanitize(x + pat)| && Sanitize(x + pat)[|Sanitize(x + pat)| - |pat|..] == pat
  {
    CleanUnchanged(pat);
    if LStripC0(x) != [] {
      SanitizeConcat(x, pat);
      RemoveUnsafeOfSafe(pat);
    } else {
      LStripC0Suffix(x);
      LeadingBlanksIgnored(x, pat);
    }
  }

  /** Past a non-blank prefix, sanitizing works piece by piece, and clean text put in there stays as it is. */
  lemma SanitizeInsertBetween(x: string, extra: string, y: string)
    requires LStripC0(x) != []
    requires forall k :: 0 <= k < |extra| ==> !IsUnsafe(extra[k])
    ensures Sanitize(x + y) == Sanitize(x) + RemoveUnsafe(y)
    ensures Sanitize(x + extra + y) == Sanitize(x) + extra + RemoveUnsafe(y)
  {
    SanitizeConcat(x, y);
    assert x + extra + y == x + (extra + y);
    SanitizeConcat(x, extra + y);
    RemoveUnsafeConcat(extra, y);
    RemoveUnsafeOfSafe(extra);
  }

  /** Inserting clean text after a non-blank prefix inserts it into the sanitized text at the end of the sanitized prefix. */
  lemma SanitizeInsert(u: string, at: nat, extra: string)
    requires at <= |u| && LStripC0(u[..at]) != []
    requires forall k :: 0 <= k < |extra| ==> !IsUnsafe(extra[k])
    ensures var a := Sanitize(u[..at]); var s := Sanitize(u);
      |a| <= |s| && s[..|a|] == a &&
      Sanitize(u[..at] + extra + u[at..]) == s[..|a|] + extra + s[|a|..]
  {
    var x, y := u[..at], u[at..];
    assert u == x + y;
    SanitizeInsertBetween(x, extra, y);
    var a, b := Sanitize(x), RemoveUnsafe(y);
    assert (a + b)[..|a|] == a && (a + b)[|a|..] == b;
  }

  /** A text that ends a prefix of `s` occurs in `s` where it ends that prefix. */
  lemma OccursAtEnd(s: string, a: string, pat: string)
    requires |pat| <= |a| <= |s| && s[..|a|] == a && a[|a| - |pat|..] == pat
    ensures OccursAt(s, pat, |a| - |pat|)
  {
    assert s[|a| - |pat|..|a|] == a[|a| - |pat|..];
  }

  /** A clean pattern after any text ends a prefix of the sanitized text and occurs there. */
  lemma PatternInSanitized(x: string, pat: string, y: string)
    requires pat != [] && IsClean(pat)
    ensures LStripC0(x + pat) != []
    ensures var a := Sanitize(x + pat); var s := Sanitize(x + pat + y);
      |pat| <= |a| <= |s| && s[..|a|] == a && OccursAt(s, pat, |a| - |pat|)
  {
    SanitizedEndsWith(x, pat);
    SanitizeConcat(x + pat, y);
    var a, b := Sanitize(x + pat), RemoveUnsafe(y);
    assert (a + b)[..|a|] == a;
    OccursAtEnd(a + b, a, pat);
  }

  /** An occurrence of a clean pattern in a URL ends a non-blank prefix whose sanitized text ends where the pattern occurs in the sanitized URL. */
  lemma OccurrenceSanitized(url: string, pat: string, i: nat)
    requires OccursAt(url, pat, i) && pat != [] && IsClean(pat)
    ensures var at := i + |pat|; var n := |Sanitize(url[..at])|;
      LStripC0(url[..at]) != [] && |pat| <= n && OccursAt(Sanitize(url), pat, n - |pat|)
  {
    var at := i + |pat|;
    var x, y := url[..i], url[at..];
    var u1 := x + pat;
    assert url[..at] == u1;
    assert url == u1 + y;
    PatternInSanitized(x, pat, y);
  }

  /** `urlsplit(url)`: the split of the sanitized URL. */
  function SplitUrl(url: string): (p: UrlParts)
    ensures Unsplit(p) == Sanitize(url) && IsClean(Unsplit(p))
    ensures WellFormed(p)
  {
    SanitizeIsClean(url);
    SplitClean(Sanitize(url))
  }

  /** `urlparse(url).netloc or ''`. */
  function Netloc(url: string): string
  {
    SplitUrl(url).netloc
  }

  /** The schemes of `uses_params`, for which `urlparse` splits `;params` off the path. */
  predicate UsesParams(p: UrlParts)
  {
    !p.hasScheme ||
    Lower(p.scheme) in ["ftp", "hdl", "prospero", "http", "imap", "https", "shttp", "rtsp",
                        "rtsps", "rtspu", "sip", "sips", "mms", "sftp", "tel"]
  }

  /** `_splitparams(path)[0]`: the path up to the first ';' after its last '/', or its first ';' when it has no '/'. */
  function StripParams(path: string): (r: string)
    ensures |r| <= |path| && r == path[..|r|]
    ensures forall k :: 0 <= k < |r| && LastIndex(path, '/') <= k ==> path[k] != ';'
    ensures |r| < |path| ==> path[|r|] == ';'
  {
    var j := LastIndex(path, '/');
    path[..FirstOfAny(path, {';'}, if j >= 0 then j else 0)]
  }

  /** `urlparse(url).path`. */
  function UrlPath(url: string): string
  {
    var p := SplitUrl(url);
    if UsesParams(p) then StripParams(p.path) else p.path
  }

  /**
   * `urlsplit` raises `ValueError('Invalid IPv6 URL')` when the network
   * location holds a '[' and no ']', or a ']' and no '['.
   */
  predicate ParseRaises(url: string)
  {
    ('[' in Netloc(url)) != (']' in Netloc(url))
  }

  lemma ConcatAssoc(a: string, b: string, c: string)
    ensures a + (b + c) == (a + b) + c
  {
  }

  lemma FirstIndexIs(s: string, c: char, i: nat)
    requires i < |s| && s[i] == c && forall k :: 0 <= k < i ==> s[k] != c
    ensures FirstIndex(s, c) == i
  {
  }

  lemma SchemeOf(scheme: string, rest: string)
    requires ValidScheme(scheme)
    ensures SplitScheme(scheme + ":" + rest) == (true, scheme, rest)
  {
    var url := scheme + ":" + rest;
    forall k | 0 <= k < |scheme|
      ensures url[k] != ':' && IsSchemeChar(url[k])
    {
      assert url[k] == scheme[k];
    }
    FirstIndexIs(url, ':', |scheme|);
    assert url[..|scheme|] == scheme && url[|scheme| + 1..] == rest;
  }

  lemma NetlocOf(netloc: string, rest: string)
    requires forall c :: c in netloc ==> c != '/' && c != '?' && c != '#'
    requires |rest| == 0 || rest[0] in {'/', '?', '#'}
    ensures SplitNetloc("//" + netloc + rest) == (true, netloc, rest)
  {
    var s := "//" + netloc + rest;
    var e := FirstOfAny(s, {'/', '?', '#'}, 2);
    forall k | 2 <= k < 2 + |netloc|
      ensures s[k] !in {'/', '?', '#'}
    {
      assert s[k] == netloc[k - 2] && netloc[k - 2] in netloc;
    }
    if |rest| > 0 {
      assert s[2 + |netloc|] == rest[0];
    }
    assert e == 2 + |netloc|;
    assert s[..2] == "//" && s[2..e] == netloc && s[e..] == rest;
  }

  lemma PathOf(path: string, tail: string)
    requires forall c :: c in path ==> c != '?' && c != '#'
    requires tail == [] || tail[0] == '?' || tail[0] == '#'
    ensures SplitPath(path + tail) == (path, tail)
  {
    var s := path + tail;
    var q := FirstOfAny(s, {'?', '#'}, 0);
    forall k | 0 <= k < |path|
      ensures s[k] !in {'?', '#'}
    {
      assert s[k] == path[k] && path[k] in path;
    }
    if |tail| > 0 {
      assert s[|path|] == tail[0];
    }
    assert q == |path|;
    assert s[..q] == path && s[q..] == tail;
  }

  lemma SchemeOfUnsplit(p: UrlParts)
    requires WellFormed(p)
    ensures SplitScheme(Unsplit(p)) == (p.hasScheme, p.scheme, NetlocPart(p) + (p.path + p.tail))
  {
    var rest := NetlocPart(p) + (p.path + p.tail);
    if p.hasScheme {
      assert Unsplit(p) == p.scheme + ":" + rest;
      SchemeOf(p.scheme, rest);
    } else {
      assert Unsplit(p) == rest;
    }
  }

  lemma NetlocOfRest(p: UrlParts)
    requires WellFormed(p)
    ensures SplitNetloc(NetlocPart(p) + (p.path + p.tail)) == (p.hasNetloc, p.netloc, p.path + p.tail)
  {
    if p.hasNetloc {
      assert NetlocPart(p) + (p.path + p.tail) == "//" + p.netloc + (p.path + p.tail);
      NetlocOf(p.netloc, p.path + p.tail);
    } else {
      assert NetlocPart(p) + (p.path + p.tail) == p.path + p.tail;
    }
  }

  /** Splitting reassembled parts gives the parts back: the split and `Unsplit` are inverse on well-formed parts. */
  lemma SplitUnsplit(p: UrlParts)
    requires WellFormed(p)
    ensures SplitClean(Unsplit(p)) == p
  {
    SchemeOfUnsplit(p);
    NetlocOfRest(p);
    PathOf(p.path, p.tail);
  }

  /** `urlsplit` and `Unsplit` are inverse on well-formed parts that need no cleaning. */
  lemma UrlSplitUnsplit(p: UrlParts)
    requires WellFormed(p) && IsClean(Unsplit(p))
    ensures SplitUrl(Unsplit(p)) == p
  {
    SplitUnsplit(p);
    CleanUnchanged(Unsplit(p));
  }

  /** An `https://` URL is sanitized by removing the tabs, CRs and LFs of its host and its path. */
  lemma SanitizeAfterClean(a: string, b: string)
    requires a != [] && IsClean(a)
    ensures Sanitize(a + b) == a + RemoveUnsafe(b)
  {
    assert LStripC0(a) == a;
    SanitizeConcat(a, b);
    CleanUnchanged(a);
  }

  lemma SanitizeHttps(host: string, path: string)
    ensures Sanitize("https://" + host + path) == "https://" + RemoveUnsafe(host) + RemoveUnsafe(path)
  {
    var a := "https://";
    assert IsClean(a) by {
      assert forall k :: 0 <= k < |a| ==> a[k] > ' ';
    }
    assert a + host + path == a + (host + path);
    SanitizeAfterClean(a, host + path);
    RemoveUnsafeConcat(host, path);
  }

  /** The split of a clean `https://host/path` text. */
  lemma SplitCleanHttps(h: string, q: string)
    requires forall c :: c in h ==> c != '/' && c != '?' && c != '#'
    requires forall c :: c in q ==> c != '?' && c != '#'
    requires |q| == 0 || q[0] == '/'
    ensures SplitClean("https://" + h + q) == UrlParts(true, "https", true, h, q, "")
  {
    var p := UrlParts(true, "https", true, h, q, "");
    assert ValidScheme("https");
    assert q + "" == q;
    assert Unsplit(p) == "https://" + h + q;
    SplitUnsplit(p);
  }

  /**
   * Netloc and path of an `https://host/path` URL: the host and the path with
   * their tabs, CRs and LFs removed, and the path without its `;params`.
   */
  lemma SplitHttpsUrl(host: string, path: string)
    requires forall c :: c in host ==> c != '/' && c != '?' && c != '#'
    requires forall c :: c in path ==> c != '?' && c != '#'
    requires |path| == 0 || path[0] == '/'
    ensures Netloc("https://" + host + path) == RemoveUnsafe(host)
    ensures UrlPath("https://" + host + path) == StripParams(RemoveUnsafe(path))
  {
    var h, q := RemoveUnsafe(host), RemoveUnsafe(path);
    var parts := UrlParts(true, "https", true, h, q, "");
    assert SplitUrl("https://" + host + path) == parts by {
      SanitizeHttps(host, path);
      HttpsCleanParts(host, path);
      SplitCleanHttps(h, q);
    }
    assert UsesParams(parts) by {
      HttpsUsesParams();
    }
  }

  /** The cleaned host and path still meet the shape `SplitCleanHttps` needs. */
  lemma HttpsCleanParts(host: string, path: string)
    requires forall c :: c in host ==> c != '/' && c != '?' && c != '#'
    requires forall c :: c in path ==> c != '?' && c != '#'
    requires |path| == 0 || path[0] == '/'
    ensures forall c :: c in RemoveUnsafe(host) ==> c != '/' && c != '?' && c != '#'
    ensures forall c :: c in RemoveUnsafe(path) ==> c != '?' && c != '#'
    ensures |RemoveUnsafe(path)| == 0 || RemoveUnsafe(path)[0] == '/'
  {
    if |path| > 0 {
      assert path == [path[0]] + path[1..];
      RemoveUnsafeConcat([path[0]], path[1..]);
    }
    forall c | c in RemoveUnsafe(host)
      ensures c != '/' && c != '?' && c != '#'
    {
      RemoveUnsafeKeeps(host, c);
    }
    forall c | c in RemoveUnsafe(path)
      ensures c != '?' && c != '#'
    {
      RemoveUnsafeKeeps(path, c);
    }
  }

  lemma HttpsUsesParams()
    ensures Lower("https") == "https"
  {
    var s := "https";
    assert forall i :: 0 <= i < |s| ==> LowerChar(s[i]) == s[i];
  }

  /** An `https://host/path` URL makes the parse raise exactly when the host's brackets do not pair up. */
  lemma HttpsUrlRaises(host: string, path: string)
    requires forall c :: c in host ==> c != '/' && c != '?' && c != '#'
    requires forall c :: c in path ==> c != '?' && c != '#'
    requires |path| == 0 || path[0] == '/'
    ensures ParseRaises("https://" + host + path) <==> ('[' in host) != (']' in host)
  {
    SplitHttpsUrl(host, path);
    RemoveUnsafeKeeps(host, '[');
    RemoveUnsafeKeeps(host, ']');
  }

  /** Removing the tabs, CRs and LFs of `a + "\t" + b` where only the tab is one. */
  lemma RemoveTab(a: string, b: string)
    requires forall k :: 0 <= k < |a| ==> !IsUnsafe(a[k])
    requires forall k :: 0 <= k < |b| ==> !IsUnsafe(b[k])
    ensures RemoveUnsafe(a + "\t" + b) == a + b
  {
    var tab := "\t";
    assert IsUnsafe(tab[0]) && tab[1..] == [];
    assert RemoveUnsafe(tab) == "" + RemoveUnsafe(tab[1..]);
    RemoveUnsafeConcat(a + tab, b);
    RemoveUnsafeConcat(a, tab);
    RemoveUnsafeOfSafe(a);
    RemoveUnsafeOfSafe(b);
    assert a + [] == a;
  }

  /** A tab, CR or LF inside the host is removed before the host is read: `https://a\tb/` names the host `ab`. */
  lemma TabInHostRemoved(a: string, b: string, path: string)
    requires forall c :: c in a + b ==> c != '/' && c != '?' && c != '#' && !IsUnsafe(c)
    requires forall c :: c in path ==> c != '?' && c != '#'
    requires |path| == 0 || path[0] == '/'
    ensures Netloc("https://" + (a + "\t" + b) + path) == a + b
  {
    assert forall c :: c in a + "\t" + b ==> c in a + b || c == '\t';
    SplitHttpsUrl(a + "\t" + b, path);
    assert forall k :: 0 <= k < |a| ==> a[k] in a + b;
    assert forall k :: 0 <= k < |b| ==> b[k] in a + b;
    RemoveTab(a, b);
  }
}
