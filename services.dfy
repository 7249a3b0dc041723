/**
 * The `services_csv` column of a lead: how the submit form writes it (service
 * ids joined with ','), how the lead view reads it back, and the LIKE filter
 * the dashboard uses to find the leads offering one service.
 */
module Services {
  import opened Text

  /** `[str(s) for s in ids]`. */
  function Decimals(ids: seq<nat>): (r: seq<string>)
    ensures |r| == |ids|
    ensures forall i :: 0 <= i < |ids| ==> r[i] == NatToString(ids[i])
  {
    seq(|ids|, i requires 0 <= i < |ids| => NatToString(ids[i]))
  }

  /** `','.join(str(s) for s in ids)`, as the submit handler stores it. */
  function ServicesCsv(ids: seq<nat>): string
  {
    Join(Decimals(ids), ",")
  }

  /** What the lead view makes of `services_csv`. */
  datatype ServiceList =
    | NoServices                       // empty column
    | ServiceIds(ids: seq<int>)        // first part all digits: every part read by `int()`
    | ServiceNames(names: seq<string>) // otherwise the parts are the names
    | Malformed                        // `int()` fails on a later part

  /** The stripped parts of a split. */
  function StrippedParts(csv: string): (parts: seq<string>)
    ensures |parts| == |Split(csv, ',')|
    ensures forall i :: 0 <= i < |parts| ==> parts[i] == Strip(Split(csv, ',')[i])
  {
    var raw := Split(csv, ',');
    seq(|raw|, i requires 0 <= i < |raw| => Strip(raw[i]))
  }

  /** Digits, with single underscores between two digits, as `int()` groups them. */
  predicate DigitGroups(d: string)
  {
    |d| > 0 && IsDigitChar(d[0]) && IsDigitChar(d[|d| - 1]) &&
    (forall i :: 0 <= i < |d| ==> IsDigitChar(d[i]) || d[i] == '_') &&
    (forall i :: 0 <= i < |d| - 1 ==> d[i] == '_' ==> d[i + 1] != '_')
  }

  predicate Signed(s: string)
  {
    |s| > 0 && (s[0] == '+' || s[0] == '-')
  }

  /** The text after an optional sign. */
  function Magnitude(s: string): (d: string)
    ensures Signed(s) ==> d == s[1..]
    ensures !Signed(s) ==> d == s
  {
    if Signed(s) then s[1..] else s
  }

  /** The texts Python's `int()` reads on ASCII (the parts are already stripped). */
  predicate IntLiteral(s: string)
  {
    DigitGroups(Magnitude(s))
  }

  /** The digits of a text with its underscores removed. */
  function DropUnderscores(d: string): (r: string)
    ensures |r| <= |d|
    ensures (forall i :: 0 <= i < |d| ==> IsDigitChar(d[i]) || d[i] == '_') ==>
      forall i :: 0 <= i < |r| ==> IsDigitChar(r[i])
    ensures '_' !in d ==> r == d
    decreases |d|
  {
    if |d| == 0 then ""
    else (if d[0] == '_' then "" else [d[0]]) + DropUnderscores(d[1..])
  }

  /** The value `int(s)` gives for a literal it reads. */
  function IntValue(s: string): int
    requires IntLiteral(s)
  {
    var n: int := ParseNat(DropUnderscores(Magnitude(s)));
    if s[0] == '-' then -n else n
  }

  /** A text of digits is read by `int()` as the number it spells. */
  lemma DigitsAreIntLiteral(s: string)
    requires IsDigits(s)
    ensures IntLiteral(s) && IntValue(s) == ParseNat(s)
  {
    assert !Signed(s) && '_' !in s;
  }

  /** `int()` also takes a sign: "-3" is -3 and "+3" is 3, where `isdigit()` refuses both. */
  lemma IntReadsSigns()
    ensures IntLiteral("-3") && IntValue("-3") == -3 && !IsDigits("-3")
    ensures IntLiteral("+3") && IntValue("+3") == 3 && !IsDigits("+3")
  {
    assert Magnitude("-3") == "3" && Magnitude("+3") == "3";
    assert DropUnderscores("3") == "3";
  }

  /** Removing the underscore of `a_b` leaves `ab`. */
  lemma DropPairUnderscore(a: char, b: char)
    requires a != '_' && b != '_'
    ensures DropUnderscores([a, '_', b]) == [a, b]
  {
    var d := [a, '_', b];
    assert d[1..] == ['_', b] && d[1..][1..] == [b] && [b][1..] == [];
    assert DropUnderscores(d) == [a] + DropUnderscores(d[1..]);
  }

  /** Two digits read as the two-digit number. */
  lemma ParsePair(a: char, b: char)
    requires IsDigitChar(a) && IsDigitChar(b)
    ensures ParseNat([a, b]) == 10 * (a as int - '0' as int) + (b as int - '0' as int)
  {
    assert [a, b][..1] == [a] && [a][..0] == [];
    assert ParseNat([a]) == a as int - '0' as int;
  }

  /** Two digits joined by an underscore read as the two-digit number. */
  lemma GroupedPair(a: char, b: char)
    requires IsDigitChar(a) && IsDigitChar(b)
    ensures IntLiteral([a, '_', b]) && IntValue([a, '_', b]) == 10 * (a as int - '0' as int) + (b as int - '0' as int)
  {
    assert Magnitude([a, '_', b]) == [a, '_', b];
    DropPairUnderscore(a, b);
    ParsePair(a, b);
  }

  /** Two underscores in a row, or one at either end, are refused. */
  lemma UnderscoresRefused(s: string)
    requires !Signed(s)
    requires (exists i :: 0 <= i < |s| - 1 && s[i] == '_' && s[i + 1] == '_') || (|s| > 0 && (s[0] == '_' || s[|s| - 1] == '_'))
    ensures !IntLiteral(s)
  {
  }

  /** `int()` takes single underscores between digits: "1_0" is 10; "1__0", "_1" and "1_" are refused. */
  lemma IntReadsDigitGroups()
    ensures IntLiteral("1_0") && IntValue("1_0") == 10
    ensures !IntLiteral("1__0") && !IntLiteral("_1") && !IntLiteral("1_")
  {
    GroupedPair('1', '0');
    assert "1_0" == ['1', '_', '0'];
    var t := "1__0";
    assert t[1] == '_' && t[2] == '_';
    UnderscoresRefused(t);
    UnderscoresRefused("_1");
    UnderscoresRefused("1_");
  }

  predicate AllInts(parts: seq<string>)
  {
    forall i :: 0 <= i < |parts| ==> IntLiteral(parts[i])
  }

  /** `[int(s) for s in parts]`. */
  function ParseAll(parts: seq<string>): (ids: seq<int>)
    requires AllInts(parts)
    ensures |ids| == |parts|
    ensures forall i :: 0 <= i < |parts| ==> ids[i] == IntValue(parts[i])
  {
    seq(|parts|, i requires 0 <= i < |parts| => IntValue(parts[i]))
  }

  /**
   * The lead view's reading of `services_csv`: the test on the first part is
   * `isdigit()`, and then every part goes through `int()`.
   */
  function ParseServices(csv: string): (r: ServiceList)
    ensures r.NoServices? <==> csv == ""
    ensures r.ServiceNames? <==> csv != "" && !IsDigits(StrippedParts(csv)[0])
    ensures r.ServiceNames? ==> r.names == StrippedParts(csv)
    ensures r.Malformed? <==> csv != "" && IsDigits(StrippedParts(csv)[0]) && !AllInts(StrippedParts(csv))
    ensures r.ServiceIds? ==> var parts := StrippedParts(csv);
      |r.ids| == |parts| && forall i :: 0 <= i < |parts| ==> IntLiteral(parts[i]) && r.ids[i] == IntValue(parts[i])
  {
    if csv == "" then NoServices
    else
      var parts := StrippedParts(csv);
      if !IsDigits(parts[0]) then ServiceNames(parts)
      else if AllInts(parts) then ServiceIds(ParseAll(parts))
      else Malformed
  }

  lemma {:induction false} ParseNatToString(n: nat)
    ensures ParseNat(NatToString(n)) == n
  {
    var s := NatToString(n);
    if n >= 10 {
      ParseNatToString(n / 10);
      assert s[..|s| - 1] == NatToString(n / 10);
    }
  }

  lemma StripDigits(s: string)
    requires IsDigits(s)
    ensures Strip(s) == s
  {
    assert !IsSpace(s[0]) && !IsSpace(s[|s| - 1]);
  }

  /** The stored text splits back into the decimals, each of which strips to itself. */
  lemma CsvSplitsToDecimals(ids: seq<nat>)
    requires |ids| > 0
    ensures Split(ServicesCsv(ids), ',') == Decimals(ids)
    ensures StrippedParts(ServicesCsv(ids)) == Decimals(ids)
  {
    var parts := Decimals(ids);
    forall k | 0 <= k < |parts|
      ensures ',' !in parts[k]
    {
      assert IsDigits(parts[k]);
      assert forall j :: 0 <= j < |parts[k]| ==> parts[k][j] != ',';
    }
    SplitJoin(parts, ',');
    var stripped := StrippedParts(ServicesCsv(ids));
    forall i | 0 <= i < |parts|
      ensures stripped[i] == parts[i]
    {
      StripDigits(parts[i]);
    }
  }

  lemma ParseDecimals(ids: seq<nat>)
    ensures AllInts(Decimals(ids)) && ParseAll(Decimals(ids)) == ids
  {
    forall i | 0 <= i < |ids|
      ensures IntLiteral(Decimals(ids)[i]) && IntValue(Decimals(ids)[i]) == ids[i]
    {
      DigitsAreIntLiteral(Decimals(ids)[i]);
      ParseNatToString(ids[i]);
    }
  }

  /** What the submit form writes, the lead view reads back as the same ids. */
  lemma ServicesRoundTrip(ids: seq<nat>)
    requires |ids| > 0
    ensures ParseServices(ServicesCsv(ids)) == ServiceIds(ids)
  {
    var parts := Decimals(ids);
    CsvSplitsToDecimals(ids);
    ParseDecimals(ids);
    assert ServicesCsv(ids) != "" by {
      JoinHead(parts, ",");
      assert IsDigits(parts[0]);
    }
  }

  /**
   * The dashboard's service filter: the four LIKE patterns `tok,%`, `%,tok,%`,
   * `%,tok` and the equality `= tok`, for a token free of LIKE wildcards.
   */
  predicate CsvFilterMatches(csv: string, tok: string)
  {
    StartsWith(csv, tok + ",") || Contains(csv, "," + tok + ",") || EndsWith(csv, "," + tok) || csv == tok
  }

  lemma NoCommaNoOccurrence(s: string, p: string, k: int)
    requires ',' !in s && k < |p| && 0 <= k && p[k] == ','
    ensures forall i :: !OccursAt(s, p, i)
  {
    forall i | 0 <= i && i + |p| <= |s|
      ensures !OccursAt(s, p, i)
    {
      assert s[i..i + |p|][k] == s[i + k];
      assert s[i + k] in s;
    }
  }

  /** An occurrence of `,tok,` in `h + "," + rest` starts at the first comma or inside `rest`. */
  lemma OccurrenceAfterHead(csv: string, h: string, rest: string, tok: string, i: int)
    requires csv == h + "," + rest && ',' !in h
    requires OccursAt(csv, "," + tok + ",", i)
    ensures StartsWith(rest, tok + ",") || Contains(rest, "," + tok + ",")
  {
    var p := "," + tok + ",";
    var n := |h|;
    assert csv[i] == p[0];
    if i < n {
      assert false;
    } else if i == n {
      assert rest[..|tok| + 1] == csv[n + 1..n + |p|];
      assert csv[n + 1..n + |p|] == p[1..];
      assert p[1..] == tok + ",";
    } else {
      var j := i - n - 1;
      assert csv[n + 1..] == rest;
      SliceOfSuffix(csv, n + 1, j, |p|);
      assert OccursAt(rest, p, j);
    }
  }

  /** When `csv` is `h + "," + rest`, an occurrence of `,tok,` is at the first comma or inside `rest`. */
  lemma ContainsAfterHead(csv: string, h: string, rest: string, tok: string)
    requires csv == h + "," + rest && ',' !in h
    ensures Contains(csv, "," + tok + ",") <==> StartsWith(rest, tok + ",") || Contains(rest, "," + tok + ",")
  {
    var p := "," + tok + ",";
    var n := |h|;
    if Contains(csv, p) {
      var i :| 0 <= i <= |csv| - |p| && OccursAt(csv, p, i);
      OccurrenceAfterHead(csv, h, rest, tok, i);
    }
    if StartsWith(rest, tok + ",") {
      assert csv[n..n + |p|] == [','] + rest[..|tok| + 1];
      assert OccursAt(csv, p, n);
    }
    if Contains(rest, p) {
      var j :| 0 <= j <= |rest| - |p| && OccursAt(rest, p, j);
      assert csv[n + 1..] == rest;
      SliceOfSuffix(csv, n + 1, j, |p|);
      assert OccursAt(csv, p, n + 1 + j);
    }
  }

  /** When `csv` is `h + "," + rest`, a suffix `,tok` is the first comma with `rest == tok`, or inside `rest`. */
  lemma EndsWithAfterHead(csv: string, h: string, rest: string, tok: string)
    requires csv == h + "," + rest && ',' !in h && ',' !in tok
    ensures EndsWith(csv, "," + tok) <==> rest == tok || EndsWith(rest, "," + tok)
  {
    var p := "," + tok;
    var n := |h|;
    if EndsWith(csv, p) {
      var i := |csv| - |p|;
      assert csv[i] == ',';
      assert forall k :: 0 <= k < n ==> csv[k] == h[k] && h[k] in h;
      assert i >= n;
      if i == n {
        assert rest == csv[n + 1..];
        assert csv[n + 1..] == csv[i..][1..];
      } else {
        assert rest[|rest| - |p|..] == csv[i..];
      }
    }
    if rest == tok {
      assert csv[n..] == p;
    }
    if EndsWith(rest, p) {
      assert csv[|csv| - |p|..] == rest[|rest| - |p|..];
    }
  }

  /** When `csv` is `h + "," + rest`, the prefix `tok,` is exactly `h`. */
  lemma StartsWithHead(csv: string, h: string, rest: string, tok: string)
    requires csv == h + "," + rest && ',' !in h && ',' !in tok
    ensures StartsWith(csv, tok + ",") <==> tok == h
  {
    if StartsWith(csv, tok + ",") {
      var m := |tok|;
      assert csv[m] == ',';
      assert forall k :: 0 <= k < |h| ==> csv[k] == h[k] && h[k] in h;
      assert m >= |h|;
      assert forall k :: 0 <= k < m ==> csv[k] == tok[k] && tok[k] in tok;
      assert csv[|h|] == ',';
      assert m == |h|;
      assert tok == csv[..m];
      assert csv[..|h|] == h;
    }
    if tok == h {
      assert csv[..|tok| + 1] == tok + ",";
    }
  }

  /**
   * The four patterns together mean: the token is one of the comma-separated
   * parts. This holds for a token free of commas and of the LIKE wildcards
   * '%' and '_'; a wildcard in the request argument widens the match.
   */
  lemma {:induction false} CsvFilterIsMembership(csv: string, tok: string)
    requires ',' !in tok && '%' !in tok && '_' !in tok
    ensures CsvFilterMatches(csv, tok) <==> tok in Split(csv, ',')
    decreases |csv|
  {
    var i := FirstIndex(csv, ',');
    FirstIndexAbsent(csv, ',');
    if i == |csv| {
      NoCommaNoOccurrence(csv, tok + ",", |tok|);
      NoCommaNoOccurrence(csv, "," + tok + ",", 0);
      NoCommaNoOccurrence(csv, "," + tok, 0);
      StartsWithOccurs(csv, tok + ",");
      EndsWithOccurs(csv, "," + tok);
      assert Split(csv, ',') == [csv];
    } else {
      var h := csv[..i];
      var rest := csv[i + 1..];
      assert csv == h + "," + rest;
      assert ',' !in h;
      assert Split(csv, ',') == [h] + Split(rest, ',');
      CsvFilterIsMembership(rest, tok);
      StartsWithHead(csv, h, rest, tok);
      ContainsAfterHead(csv, h, rest, tok);
      EndsWithAfterHead(csv, h, rest, tok);
      assert csv != tok by {
        assert csv[i] == ',';
        assert forall k :: 0 <= k < |tok| ==> tok[k] in tok;
      }
    }
  }
}
