/**
 * The string operations the source leans on (`startswith`, `endswith`, `in`,
 * `split`, `rsplit`, `join`, `replace`, `lower`, `strip`, `str(int)`, `isdigit`),
 * defined on `seq<char>` with the facts the rest of the model needs.
 * Only ASCII case is modelled; whitespace is the full set Python's `str.strip()` removes.
 */
module Text {

  predicate StartsWith(s: string, p: string)
  {
    |p| <= |s| && s[..|p|] == p
  }

  predicate EndsWith(s: string, p: string)
  {
    |p| <= |s| && s[|s| - |p|..] == p
  }

  /** `p` occurs in `s` starting at index `i`. */
  predicate OccursAt(s: string, p: string, i: int)
  {
    0 <= i && i + |p| <= |s| && s[i..i + |p|] == p
  }

  /** A slice of a suffix is the same slice of the whole, shifted by where the suffix starts. */
  lemma SliceOfSuffix(s: string, k: nat, j: nat, m: nat)
    requires k <= |s| && j + m <= |s| - k
    ensures s[k..][j..j + m] == s[k + j..k + j + m]
  {
    var t := s[k..][j..j + m];
    assert forall x :: 0 <= x < m ==> t[x] == s[k + j + x];
  }

  /** Python's `p in s` for strings. */
  predicate Contains(s: string, p: string)
  {
    exists i | 0 <= i <= |s| - |p| :: OccursAt(s, p, i)
  }

  /** Index of the first `c` in `s`; `|s|` when `s` has none. */
  function FirstIndex(s: string, c: char): (i: nat)
    ensures i <= |s|
    ensures i < |s| ==> s[i] == c
    ensures forall k :: 0 <= k < i ==> s[k] != c
  {
    if |s| == 0 then 0
    else if s[0] == c then 0
    else 1 + FirstIndex(s[1..], c)
  }

  /** Index of the last `c` in `s`; -1 when `s` has none (Python's `rfind`). */
  function LastIndex(s: string, c: char): (i: int)
    ensures -1 <= i < |s|
    ensures i >= 0 ==> s[i] == c
    ensures forall k :: i < k < |s| ==> s[k] != c
  {
    if |s| == 0 then -1
    else if s[|s| - 1] == c then |s| - 1
    else LastIndex(s[..|s| - 1], c)
  }

  lemma FirstIndexAbsent(s: string, c: char)
    ensures c !in s <==> FirstIndex(s, c) == |s|
  {
    if c in s {
      var k :| 0 <= k < |s| && s[k] == c;
      assert FirstIndex(s, c) <= k;
    }
  }

  /** Python's `s.split(c)` for a one-character separator. */
  function Split(s: string, c: char): (parts: seq<string>)
    ensures |parts| >= 1
    decreases |s|
  {
    var i := FirstIndex(s, c);
    if i == |s| then [s] else [s[..i]] + Split(s[i + 1..], c)
  }

  /** No part of a split holds the separator. */
  lemma {:induction false} SplitPartsLackSeparator(s: string, c: char)
    ensures forall k :: 0 <= k < |Split(s, c)| ==> c !in Split(s, c)[k]
    decreases |s|
  {
    var i := FirstIndex(s, c);
    if i < |s| {
      SplitPartsLackSeparator(s[i + 1..], c);
      assert forall k :: 0 <= k < i ==> s[..i][k] == s[k];
    }
  }

  /** Python's `sep.join(parts)`. */
  function Join(parts: seq<string>, sep: string): string
  {
    if |parts| == 0 then ""
    else if |parts| == 1 then parts[0]
    else parts[0] + sep + Join(parts[1..], sep)
  }

  /** Joining the parts of a split with the separator gives back the string. */
  lemma {:induction false} JoinSplit(s: string, c: char)
    ensures Join(Split(s, c), [c]) == s
    decreases |s|
  {
    var i := FirstIndex(s, c);
    if i < |s| {
      var rest := Split(s[i + 1..], c);
      JoinSplit(s[i + 1..], c);
      assert Split(s, c) == [s[..i]] + rest;
      assert ([s[..i]] + rest)[1..] == rest;
      calc {
        Join(Split(s, c), [c]);
        s[..i] + [c] + Join(rest, [c]);
        s[..i] + [c] + s[i + 1..];
        { assert s == s[..i] + [s[i]] + s[i + 1..]; }
        s;
      }
    }
  }

  /** `FirstIndex` is the only index with its contract. */
  lemma FirstIndexAt(s: string, c: char, i: nat)
    requires i < |s| && s[i] == c && forall k :: 0 <= k < i ==> s[k] != c
    ensures FirstIndex(s, c) == i
  {
  }

  /** A separator-free first part, the separator, and the rest split into that part and the split of the rest. */
  lemma SplitCons(p: string, c: char, j: string)
    requires c !in p
    ensures Split(p + [c] + j, c) == [p] + Split(j, c)
  {
    var s := p + [c] + j;
    assert forall k :: 0 <= k < |p| ==> s[k] == p[k];
    assert s[|p|] == c;
    FirstIndexAt(s, c, |p|);
    assert s[..|p|] == p;
    assert s[|p| + 1..] == j;
  }

  /** Splitting a join of separator-free parts gives back the parts. */
  lemma {:induction false} SplitJoin(parts: seq<string>, c: char)
    requires |parts| >= 1
    requires forall k :: 0 <= k < |parts| ==> c !in parts[k]
    ensures Split(Join(parts, [c]), c) == parts
    decreases |parts|
  {
    var p := parts[0];
    if |parts| > 1 {
      var j := Join(parts[1..], [c]);
      assert Join(parts, [c]) == p + [c] + j;
      SplitCons(p, c, j);
      SplitJoin(parts[1..], c);
      assert parts == [p] + parts[1..];
    } else {
      FirstIndexAbsent(p, c);
    }
  }

  lemma StartsWithOccurs(s: string, p: string)
    ensures StartsWith(s, p) <==> OccursAt(s, p, 0)
  {
  }

  lemma EndsWithOccurs(s: string, p: string)
    ensures EndsWith(s, p) <==> OccursAt(s, p, |s| - |p|)
  {
  }

  /** A join begins with its first part. */
  lemma JoinHead(parts: seq<string>, sep: string)
    requires |parts| > 0
    ensures StartsWith(Join(parts, sep), parts[0])
  {
    if |parts| > 1 {
      var j := Join(parts, sep);
      assert j == parts[0] + (sep + Join(parts[1..], sep));
      assert j[..|parts[0]|] == parts[0];
    }
  }

  /** `LastIndex` is the only index with its contract. */
  lemma LastIndexUnique(s: string, c: char, j: int)
    requires -1 <= j < |s| && (j >= 0 ==> s[j] == c)
    requires forall k :: j < k < |s| ==> s[k] != c
    ensures LastIndex(s, c) == j
  {
  }

  /** Python's `s.split(c)[-1]`. */
  function LastPart(s: string, c: char): string
  {
    Last(Split(s, c))
  }

  /** The last element of a non-empty sequence. */
  function Last<T>(ps: seq<T>): T
    requires |ps| >= 1
  {
    ps[|ps| - 1]
  }

  /** Past a separator at `i`, the last separator of `s` is the last one of the rest. */
  lemma LastIndexOfRest(s: string, c: char, i: nat)
    requires i < |s| && s[i] == c
    ensures LastIndex(s, c) == i + 1 + LastIndex(s[i + 1..], c)
  {
    var t := s[i + 1..];
    var j := LastIndex(t, c);
    assert forall k :: 0 <= k < |t| ==> t[k] == s[i + 1 + k];
    LastIndexUnique(s, c, i + 1 + j);
  }

  /** Without a separator the last part is the whole string. */
  lemma LastPartNoSeparator(s: string, c: char)
    requires c !in s
    ensures LastPart(s, c) == s[LastIndex(s, c) + 1..]
  {
    FirstIndexAbsent(s, c);
    assert Split(s, c) == [s];
    LastIndexUnique(s, c, -1);
    assert s[0..] == s;
  }

  /** Past the first separator, the last part is that of the rest. */
  lemma LastPartOfRest(s: string, c: char)
    requires FirstIndex(s, c) < |s|
    ensures LastPart(s, c) == LastPart(s[FirstIndex(s, c) + 1..], c)
  {
    var i := FirstIndex(s, c);
    var t := s[i + 1..];
    SplitStep(s, c);
    LastOfCons(s[..i], Split(t, c));
    SameLast(Split(s, c), [s[..i]] + Split(t, c), LastPart(s, c), Last(Split(t, c)));
  }

  /** Equal non-empty sequences have the same last element. */
  lemma SameLast<T>(ps: seq<T>, qs: seq<T>, x: T, y: T)
    requires |ps| >= 1 && ps == qs && x == Last(ps) && y == Last(qs)
    ensures x == y
  {
  }

  /** One unfolding of `Split` past the first separator. */
  lemma SplitStep(s: string, c: char)
    requires FirstIndex(s, c) < |s|
    ensures Split(s, c) == [s[..FirstIndex(s, c)]] + Split(s[FirstIndex(s, c) + 1..], c)
  {
  }

  /** A sequence made of a head and a non-empty rest ends as the rest does. */
  lemma LastOfCons<T>(h: T, rest: seq<T>)
    requires |rest| >= 1
    ensures Last([h] + rest) == Last(rest)
  {
  }

  /** The step of the induction below: the fact for the rest past the first separator gives it for `s`. */
  lemma LastPartStep(s: string, c: char, t: string)
    requires FirstIndex(s, c) < |s| && t == s[FirstIndex(s, c) + 1..]
    requires LastPart(t, c) == t[LastIndex(t, c) + 1..]
    ensures LastPart(s, c) == s[LastIndex(s, c) + 1..]
  {
    var i := FirstIndex(s, c);
    LastPartOfRest(s, c);
    LastIndexOfRest(s, c, i);
    SuffixOfSuffix(s, i + 1, LastIndex(t, c) + 1, LastPart(t, c), LastIndex(s, c) + 1);
  }

  /** A suffix of a suffix is a suffix, starting at the sum of the two offsets. */
  lemma SuffixOfSuffix(s: string, i: nat, k: nat, x: string, at: int)
    requires i + k <= |s| && x == s[i..][k..] && at == i + k
    ensures x == s[at..]
  {
  }

  /** The last part of a split is the text after the last separator (all of `s` when there is none). */
  lemma {:induction false} LastPartAfterLastIndex(s: string, c: char)
    ensures LastPart(s, c) == s[LastIndex(s, c) + 1..]
    decreases |s|
  {
    if FirstIndex(s, c) < |s| {
      LastPartAfterLastIndex(s[FirstIndex(s, c) + 1..], c);
      LastPartStep(s, c, s[FirstIndex(s, c) + 1..]);
    } else {
      FirstIndexAbsent(s, c);
      LastPartNoSeparator(s, c);
    }
  }

  /** A string holding the separator splits into at least two parts. */
  lemma SplitHasTwo(s: string, c: char)
    requires c in s
    ensures |Split(s, c)| >= 2
  {
    FirstIndexAbsent(s, c);
  }

  /** A join of two or more parts is the join of all but the last, the separator, and the last. */
  lemma {:induction false} JoinLast(parts: seq<string>, sep: string)
    requires |parts| >= 2
    ensures Join(parts, sep) == Join(parts[..|parts| - 1], sep) + sep + parts[|parts| - 1]
    decreases |parts|
  {
    var n := |parts|;
    if n > 2 {
      JoinLast(parts[1..], sep);
      assert parts[1..][..n - 2] == parts[1..n - 1];
      assert parts[..n - 1][1..] == parts[1..n - 1];
      assert Join(parts[..n - 1], sep) == parts[0] + sep + Join(parts[1..n - 1], sep);
    } else {
      assert parts[..1] == [parts[0]];
    }
  }

  lemma LastIndexPresent(s: string, c: char)
    requires c in s
    ensures LastIndex(s, c) >= 0
  {
    var k :| 0 <= k < |s| && s[k] == c;
  }

  lemma Assoc(a: string, b: string, c: string)
    ensures (a + b) + c == a + (b + c)
  {
  }

  lemma ConcatPrefix(x: string, y: string)
    ensures (x + y)[..|x|] == x
  {
  }

  /** A string is the join of all its parts but the last, the separator, and the text after the last separator. */
  lemma SplitAroundLast(s: string, c: char)
    requires c in s
    ensures LastIndex(s, c) >= 0
    ensures |Split(s, c)| >= 2
    ensures Join(Split(s, c)[..|Split(s, c)| - 1], [c]) + [c] + s[LastIndex(s, c) + 1..] == s
  {
    LastIndexPresent(s, c);
    SplitHasTwo(s, c);
    JoinSplit(s, c);
    LastPartAfterLastIndex(s, c);
    JoinAroundLast(Split(s, c), c, s, s[LastIndex(s, c) + 1..]);
  }

  /** Parts that join to `s` and end with `tail`: `s` is the join of the others, the separator and `tail`. */
  lemma JoinAroundLast(ps: seq<string>, c: char, s: string, tail: string)
    requires |ps| >= 2 && Join(ps, [c]) == s && Last(ps) == tail
    ensures Join(ps[..|ps| - 1], [c]) + [c] + tail == s
  {
    JoinLast(ps, [c]);
  }

  /** What comes before a separator at `L` followed by the rest is the text before `L`. */
  lemma PrefixBeforeSeparator(x: string, c: char, s: string, L: int)
    requires 0 <= L < |s| && x + [c] + s[L + 1..] == s
    ensures x == s[..L]
  {
    assert |x| == L;
    Assoc(x, [c], s[L + 1..]);
    ConcatPrefix(x, [c] + s[L + 1..]);
  }

  /** Python's `c.join(s.split(c)[:-1])`: everything before the last separator. */
  lemma StemBeforeLastIndex(s: string, c: char)
    requires c in s
    ensures |Split(s, c)| >= 2 && Join(Split(s, c)[..|Split(s, c)| - 1], [c]) == s[..LastIndex(s, c)]
  {
    var ps := Split(s, c);
    SplitAroundLast(s, c);
    PrefixBeforeSeparator(Join(ps[..|ps| - 1], [c]), c, s, LastIndex(s, c));
  }

  function LowerChar(ch: char): char
  {
    if 'A' <= ch <= 'Z' then (ch as int + 32) as char else ch
  }

  /** Python's `s.lower()` on ASCII letters. */
  function Lower(s: string): (r: string)
    ensures |r| == |s|
    ensures forall i :: 0 <= i < |s| ==> r[i] == LowerChar(s[i])
  {
    seq(|s|, i requires 0 <= i < |s| => LowerChar(s[i]))
  }

  lemma LowerConcat(a: string, b: string)
    ensures Lower(a + b) == Lower(a) + Lower(b)
  {
  }

  lemma LowerIdempotent(s: string)
    ensures Lower(Lower(s)) == Lower(s)
  {
  }

  /** Lowering leaves a non-letter where it is and puts it nowhere else. */
  lemma LowerKeepsChar(s: string, c: char)
    requires !('A' <= c <= 'Z') && !('a' <= c <= 'z')
    ensures forall i :: 0 <= i < |s| ==> (Lower(s)[i] == c <==> s[i] == c)
    ensures c in Lower(s) <==> c in s
    ensures LastIndex(Lower(s), c) == LastIndex(s, c)
  {
    var t := Lower(s);
    if c in t {
      var i :| 0 <= i < |t| && t[i] == c;
      assert s[i] == c;
    }
    if c in s {
      var i :| 0 <= i < |s| && s[i] == c;
      assert t[i] == c;
    }
    LastIndexUnique(t, c, LastIndex(s, c));
  }

  function UpperChar(ch: char): char
  {
    if 'a' <= ch <= 'z' then (ch as int - 32) as char else ch
  }

  predicate IsLetter(ch: char)
  {
    'a' <= ch <= 'z' || 'A' <= ch <= 'Z'
  }

  /**
   * Python's `s.title()` on ASCII: a letter that follows a letter is lowered,
   * any other letter is raised. `afterLetter` says whether the text before `s`
   * ended in a letter.
   */
  function TitleFrom(s: string, afterLetter: bool): (r: string)
    ensures |r| == |s|
  {
    if |s| == 0 then ""
    else [if afterLetter then LowerChar(s[0]) else UpperChar(s[0])] + TitleFrom(s[1..], IsLetter(s[0]))
  }

  /** Every occurrence of `from` replaced by `to`. */
  function ReplaceChar(s: string, from: char, to: char): (r: string)
    ensures |r| == |s|
    ensures forall i :: 0 <= i < |s| ==> r[i] == (if s[i] == from then to else s[i])
  {
    seq(|s|, i requires 0 <= i < |s| => if s[i] == from then to else s[i])
  }

  /** Python's `s.replace(pat, rep)`: leftmost, non-overlapping occurrences. */
  function ReplaceAll(s: string, pat: string, rep: string): string
    requires |pat| > 0
    decreases |s|
  {
    if |s| < |pat| then s
    else if s[..|pat|] == pat then rep + ReplaceAll(s[|pat|..], pat, rep)
    else [s[0]] + ReplaceAll(s[1..], pat, rep)
  }

  /** The number of occurrences `ReplaceAll` replaces. */
  function CountOccurrences(s: string, pat: string): nat
    requires |pat| > 0
    decreases |s|
  {
    if |s| < |pat| then 0
    else if s[..|pat|] == pat then 1 + CountOccurrences(s[|pat|..], pat)
    else CountOccurrences(s[1..], pat)
  }

  function DigitChar(d: nat): char
    requires d < 10
  {
    ('0' as int + d) as char
  }

  predicate IsDigitChar(ch: char)
  {
    '0' <= ch <= '9'
  }

  /** Python's `s.isdigit()` on ASCII: non-empty and every character a digit. */
  predicate IsDigits(s: string)
  {
    |s| > 0 && forall i :: 0 <= i < |s| ==> IsDigitChar(s[i])
  }

  /** Python's `str(n)` for a natural number. */
  function NatToString(n: nat): (r: string)
    ensures IsDigits(r)
    ensures n < 10 <==> |r| == 1
  {
    if n < 10 then [DigitChar(n)] else NatToString(n / 10) + [DigitChar(n % 10)]
  }

  /** Distinct numbers print differently. */
  lemma {:induction false} NatToStringInjective(a: nat, b: nat)
    requires NatToString(a) == NatToString(b)
    ensures a == b
  {
    if a >= 10 && b >= 10 {
      var sa, sb := NatToString(a), NatToString(b);
      assert sa[|sa| - 1] == sb[|sb| - 1];
      assert DigitChar(a % 10) == DigitChar(b % 10);
      assert sa[..|sa| - 1] == NatToString(a / 10);
      assert sb[..|sb| - 1] == NatToString(b / 10);
      NatToStringInjective(a / 10, b / 10);
    } else if a < 10 && b < 10 {
      assert NatToString(a)[0] == NatToString(b)[0];
    }
  }

  /** Python's `str(i)` for any integer. */
  function IntToString(i: int): (r: string)
    ensures |r| > 0
  {
    if i < 0 then "-" + NatToString(-i) else NatToString(i)
  }

  /** Python's `int(s)` for a string of digits. */
  function ParseNat(s: string): nat
    requires forall i :: 0 <= i < |s| ==> IsDigitChar(s[i])
  {
    if |s| == 0 then 0
    else
      assert IsDigitChar(s[|s| - 1]);
      10 * ParseNat(s[..|s| - 1]) + (s[|s| - 1] as int - '0' as int)
  }

  /**
   * Whitespace as Python's `str.strip()` sees it: the ASCII separators 9-13 and 28-32,
   * and NEL, no-break space, Ogham space, the spaces U+2000-U+200A, the line and
   * paragraph separators, the narrow no-break space, the medium mathematical space
   * and the ideographic space.
   */
  predicate IsSpace(ch: char)
  {
    ('\t' <= ch <= '\r') || ('\U{1C}' <= ch <= ' ') || ch == '\U{85}' || ch == '\U{A0}'
    || ch == '\U{1680}' || ('\U{2000}' <= ch <= '\U{200A}') || ch == '\U{2028}' || ch == '\U{2029}'
    || ch == '\U{202F}' || ch == '\U{205F}' || ch == '\U{3000}'
  }

  function StripLeft(s: string): (r: string)
    ensures |r| <= |s|
    ensures |r| > 0 ==> !IsSpace(r[0])
  {
    if |s| > 0 && IsSpace(s[0]) then StripLeft(s[1..]) else s
  }

  function StripRight(s: string): (r: string)
    ensures |r| <= |s|
    ensures |r| > 0 ==> !IsSpace(r[|r| - 1])
  {
    if |s| > 0 && IsSpace(s[|s| - 1]) then StripRight(s[..|s| - 1]) else s
  }

  /** Python's `s.strip()`. */
  function Strip(s: string): string
  {
    StripRight(StripLeft(s))
  }

  lemma {:induction false} StripLeftEmptyIffAllSpace(s: string)
    ensures StripLeft(s) == "" <==> forall i :: 0 <= i < |s| ==> IsSpace(s[i])
  {
    if |s| > 0 && IsSpace(s[0]) {
      StripLeftEmptyIffAllSpace(s[1..]);
      assert forall i :: 1 <= i < |s| ==> s[i] == s[1..][i - 1];
    }
  }

  /** A text that starts with a non-space keeps at least that character. */
  lemma {:induction false} StripRightKeepsHead(s: string)
    requires |s| > 0 && !IsSpace(s[0])
    ensures StripRight(s) != ""
  {
    if |s| > 1 && IsSpace(s[|s| - 1]) {
      StripRightKeepsHead(s[..|s| - 1]);
    }
  }

  /** `s.strip()` is empty exactly when every character of `s` is whitespace. */
  lemma StripEmptyIffAllSpace(s: string)
    ensures Strip(s) == "" <==> forall i :: 0 <= i < |s| ==> IsSpace(s[i])
  {
    StripLeftEmptyIffAllSpace(s);
    var l := StripLeft(s);
    if l != "" {
      StripRightKeepsHead(l);
    }
  }

  /** Python's `s.rstrip(c)`. */
  function RStripChar(s: string, c: char): (r: string)
    ensures |r| <= |s|
    ensures |r| > 0 ==> r[|r| - 1] != c
    ensures StartsWith(s, r)
  {
    if |s| > 0 && s[|s| - 1] == c then RStripChar(s[..|s| - 1], c) else s
  }

  /** Python's `s.lstrip(c)`. */
  function LStripChar(s: string, c: char): (r: string)
    ensures |r| <= |s|
    ensures |r| > 0 ==> r[0] != c
    ensures EndsWith(s, r)
    ensures forall k :: 0 <= k < |s| - |r| ==> s[k] == c
  {
    if |s| > 0 && s[0] == c then LStripChar(s[1..], c) else s
  }

  /** The first index at or after `start` where `p` occurs; -1 when there is none. */
  function FindFrom(s: string, p: string, start: nat): (i: int)
    ensures i == -1 || (start <= i && OccursAt(s, p, i))
    ensures i == -1 ==> forall k :: start <= k ==> !OccursAt(s, p, k)
    ensures i >= 0 ==> forall k :: start <= k < i ==> !OccursAt(s, p, k)
    decreases |s| - start
  {
    if start + |p| > |s| then -1
    else if s[start..start + |p|] == p then start
    else FindFrom(s, p, start + 1)
  }

  /** Python's `s.find(p)`. */
  function Find(s: string, p: string): (i: int)
    ensures i == -1 <==> !Contains(s, p)
    ensures i >= 0 ==> OccursAt(s, p, i) && forall k :: 0 <= k < i ==> !OccursAt(s, p, k)
  {
    FindFrom(s, p, 0)
  }

  /** Python's `s.replace(pat, rep, 1)`: only the leftmost occurrence. */
  function ReplaceFirst(s: string, pat: string, rep: string): string
  {
    var i := Find(s, pat);
    if i < 0 then s else s[..i] + rep + s[i + |pat|..]
  }

  /** Replacing the first `pat` by `pat + extra` inserts `extra` right after that occurrence. */
  lemma ReplaceFirstInserts(s: string, pat: string, extra: string)
    requires Contains(s, pat)
    ensures var i := Find(s, pat);
      0 <= i && i + |pat| <= |s| &&
      ReplaceFirst(s, pat, pat + extra) == s[..i + |pat|] + extra + s[i + |pat|..]
  {
    var i := Find(s, pat);
    var a := s[..i];
    var b := s[i + |pat|..];
    assert s[i..i + |pat|] == pat;
    assert s[..i + |pat|] == a + pat;
    assert ReplaceFirst(s, pat, pat + extra) == a + (pat + extra) + b;
  }

  /** Without an occurrence of `pat` there is nothing to replace. */
  lemma {:induction false} ReplaceAllAbsent(s: string, pat: string, rep: string)
    requires |pat| > 0 && !Contains(s, pat)
    ensures ReplaceAll(s, pat, rep) == s
    decreases |s|
  {
    if |s| >= |pat| {
      assert !OccursAt(s, pat, 0);
      assert !Contains(s[1..], pat) by {
        forall i | 0 <= i <= |s[1..]| - |pat|
          ensures !OccursAt(s[1..], pat, i)
        {
          assert !OccursAt(s, pat, i + 1);
          assert s[1..][i..i + |pat|] == s[i + 1..i + 1 + |pat|];
        }
      }
      ReplaceAllAbsent(s[1..], pat, rep);
    }
  }

  /** A character of `pat` missing from `s` rules every occurrence out. */
  lemma MissingCharNoOccurrence(s: string, pat: string, c: char)
    requires c in pat && c !in s
    ensures !Contains(s, pat)
  {
    var j :| 0 <= j < |pat| && pat[j] == c;
    forall i | 0 <= i <= |s| - |pat|
      ensures !OccursAt(s, pat, i)
    {
      assert s[i..i + |pat|][j] == s[i + j];
    }
  }

  /** Replacing brings in no character that neither the text nor the replacement holds. */
  lemma {:induction false} ReplaceAllKeepsOut(s: string, pat: string, rep: string, c: char)
    requires |pat| > 0 && c !in s && c !in rep
    ensures c !in ReplaceAll(s, pat, rep)
    decreases |s|
  {
    if |s| >= |pat| {
      if s[..|pat|] == pat {
        assert c !in s[|pat|..];
        ReplaceAllKeepsOut(s[|pat|..], pat, rep, c);
      } else {
        assert c !in s[1..];
        ReplaceAllKeepsOut(s[1..], pat, rep, c);
      }
    }
  }

  /** Without an occurrence at the start, `ReplaceAll` keeps the first character and goes on. */
  lemma ReplaceAllCons(s: string, pat: string, rep: string)
    requires |pat| > 0 && |s| > 0 && (|s| < |pat| || s[..|pat|] != pat)
    ensures ReplaceAll(s, pat, rep) == [s[0]] + ReplaceAll(s[1..], pat, rep)
  {
    if |s| < |pat| {
      assert ReplaceAll(s[1..], pat, rep) == s[1..];
      assert [s[0]] + s[1..] == s;
    }
  }

  /** No occurrence at the start of `a + b` reaches past `a`'s last character when `pat` lacks it. */
  lemma NoMatchAcrossSeam(a: string, b: string, pat: string)
    requires |pat| > 0 && |a| > 0 && a[|a| - 1] !in pat && |a + b| >= |pat|
    requires |a| >= |pat| ==> a[..|pat|] != pat
    ensures (a + b)[..|pat|] != pat
  {
    var s := a + b;
    if |a| < |pat| {
      assert s[..|pat|][|a| - 1] == a[|a| - 1];
      assert pat[|a| - 1] in pat;
    } else {
      assert a[..|pat|] == s[..|pat|];
    }
  }

  /** The step of `ReplaceAllSplit` at an occurrence that starts `a`. */
  lemma SplitAtMatch(a: string, b: string, pat: string, rep: string)
    requires |pat| > 0 && |a| >= |pat| && a[..|pat|] == pat
    requires ReplaceAll(a[|pat|..] + b, pat, rep) == ReplaceAll(a[|pat|..], pat, rep) + ReplaceAll(b, pat, rep)
    ensures ReplaceAll(a + b, pat, rep) == ReplaceAll(a, pat, rep) + ReplaceAll(b, pat, rep)
  {
    ConcatPastPrefix(a, b, |pat|);
    ReplaceAllMatch(a + b, pat, rep);
    ReplaceAllMatch(a, pat, rep);
    Assoc(rep, ReplaceAll(a[|pat|..], pat, rep), ReplaceAll(b, pat, rep));
  }

  /** Cutting a concatenation inside its first part. */
  lemma ConcatPastPrefix(a: string, b: string, n: nat)
    requires n <= |a|
    ensures (a + b)[..n] == a[..n] && (a + b)[n..] == a[n..] + b
  {
  }

  /** `ReplaceAll` at an occurrence that starts the text. */
  lemma ReplaceAllMatch(s: string, pat: string, rep: string)
    requires |pat| > 0 && |s| >= |pat| && s[..|pat|] == pat
    ensures ReplaceAll(s, pat, rep) == rep + ReplaceAll(s[|pat|..], pat, rep)
  {
  }

  /** The step of `ReplaceAllSplit` where no occurrence starts `a`. */
  lemma SplitPastFirst(a: string, b: string, pat: string, rep: string)
    requires |pat| > 0 && |a| > 0 && (|a + b| < |pat| || (a + b)[..|pat|] != pat)
    requires |a| < |pat| || a[..|pat|] != pat
    requires ReplaceAll(a[1..] + b, pat, rep) == ReplaceAll(a[1..], pat, rep) + ReplaceAll(b, pat, rep)
    ensures ReplaceAll(a + b, pat, rep) == ReplaceAll(a, pat, rep) + ReplaceAll(b, pat, rep)
  {
    ReplaceAllConsConcat(a, b, pat, rep);
    ReplaceAllCons(a, pat, rep);
    Assoc([a[0]], ReplaceAll(a[1..], pat, rep), ReplaceAll(b, pat, rep));
  }

  /** `ReplaceAllCons` for a concatenation whose first character starts no occurrence. */
  lemma ReplaceAllConsConcat(a: string, b: string, pat: string, rep: string)
    requires |pat| > 0 && |a| > 0 && (|a + b| < |pat| || (a + b)[..|pat|] != pat)
    ensures ReplaceAll(a + b, pat, rep) == [a[0]] + ReplaceAll(a[1..] + b, pat, rep)
  {
    var s := a + b;
    assert s[0] == a[0] && s[1..] == a[1..] + b;
    ReplaceAllCons(s, pat, rep);
  }

  /**
   * Text whose last character is not in `pat` can be replaced in separately
   * from what follows it: no occurrence straddles the seam.
   */
  lemma {:induction false} ReplaceAllSplit(a: string, b: string, pat: string, rep: string)
    requires |pat| > 0 && (a == [] || a[|a| - 1] !in pat)
    ensures ReplaceAll(a + b, pat, rep) == ReplaceAll(a, pat, rep) + ReplaceAll(b, pat, rep)
    decreases |a|
  {
    if a == [] {
      assert a + b == b;
    } else if |a + b| < |pat| {
      assert ReplaceAll(a, pat, rep) == a && ReplaceAll(b, pat, rep) == b;
    } else if |a| >= |pat| && a[..|pat|] == pat {
      ReplaceAllSplit(a[|pat|..], b, pat, rep);
      SplitAtMatch(a, b, pat, rep);
    } else {
      ReplaceAllSplit(a[1..], b, pat, rep);
      NoMatchAcrossSeam(a, b, pat);
      SplitPastFirst(a, b, pat, rep);
    }
  }

  /** A leading stretch none of whose characters starts `pat` is passed over unchanged. */
  lemma {:induction false} ReplaceAllSkips(w: string, t: string, pat: string, rep: string)
    requires |pat| > 0 && pat[0] !in w
    ensures ReplaceAll(w + t, pat, rep) == w + ReplaceAll(t, pat, rep)
    decreases |w|
  {
    if w != [] {
      var s := w + t;
      assert s[0] == w[0];
      assert s[1..] == w[1..] + t;
      assert w[1..] + ReplaceAll(t, pat, rep) == (w + ReplaceAll(t, pat, rep))[1..];
      if |s| >= |pat| {
        assert s[..|pat|][0] != pat[0];
      }
      ReplaceAllSkips(w[1..], t, pat, rep);
    } else {
      assert w + t == t;
    }
  }

  /** An occurrence at the very start is replaced and the scan goes on after it. */
  lemma ReplaceAllAtStart(t: string, pat: string, rep: string)
    requires |pat| > 0
    ensures ReplaceAll(pat + t, pat, rep) == rep + ReplaceAll(t, pat, rep)
  {
    assert (pat + t)[..|pat|] == pat;
    assert (pat + t)[|pat|..] == t;
  }
}
