/**
 * The dashboard's lead query and the two queries made from it by text
 * replacement: the total the pager divides into pages, and the counts per
 * status. The lead query is written over several lines, with a line break
 * inside its select list; the replacements name that list on one line.
 */
module DashboardQuery {
  import opened Text
  import opened Schema

  /** `n` spaces of indentation. */
  function Spaces(n: nat): (r: string)
    ensures |r| == n
    ensures forall c :: c in r ==> c == ' '
  {
    if n == 0 then "" else " " + Spaces(n - 1)
  }

  /** Text in which neither '*' nor 'B' occurs. */
  predicate Plain(s: string)
  {
    '*' !in s && 'B' !in s
  }

  /** Text on one line in which neither '*' nor 'B' occurs. */
  predicate Flat(s: string)
  {
    Plain(s) && '\n' !in s
  }

  /** The only '*' of `s`, if any, is at `at`. */
  predicate StarOnlyAt(s: string, at: int)
  {
    forall i :: 0 <= i < |s| && s[i] == '*' ==> i == at
  }

  // The literals below are the lead query's text, cut into short stretches.

  /** The line break after the opening quotes and the indentation of `SELECT`. */
  function Opening(): (s: string)
    ensures Plain(s) && 'S' !in s && |s| == 13
  {
    "\n" + Spaces(12)
  }

  function SubmitterColumns(): (s: string)
    ensures Flat(s)
  {
    var a, b, c := ", u.name as ", "submitter_", "name, ";
    assert Flat(a);
    assert Flat(b);
    assert Flat(c);
    a + b + c
  }

  function DeadlineColumn(): (s: string)
    ensures Flat(s)
  {
    var a, b := "la.deadline", "_at,";
    assert Flat(a);
    assert Flat(b);
    a + b
  }

  /** The select list up to `la.deadline_at,`, with its one '*' at 9. */
  function SelectHead(): (s: string)
    ensures |s| > 9 && s[0] == 'S' && s[9] == '*' && '\n' !in s && 'B' !in s && StarOnlyAt(s, 9)
  {
    var a := "SELECT l.";
    assert Flat(a) && |a| == 9 && a[0] == 'S';
    var b := SubmitterColumns() + DeadlineColumn();
    StarsAfter(a, "*", 0);
    StarsOf(a + "*", b, 9);
    a + "*" + b
  }

  function CaseTest(): (s: string)
    ensures Flat(s)
  {
    var a, b, c, d, e := "CASE WHEN ", "la.deadline", "_at ", "< CURRENT_", "TIMESTAMP ";
    assert Flat(a);
    assert Flat(b);
    assert Flat(c);
    assert Flat(d);
    assert Flat(e);
    a + b + c + d + e
  }

  function CaseResult(): (s: string)
    ensures Flat(s)
  {
    var a, b, c, d := "THEN 1 ", "ELSE 0 END ", "as is_", "overdue";
    assert Flat(a);
    assert Flat(b);
    assert Flat(c);
    assert Flat(d);
    a + b + c + d
  }

  /** The `is_overdue` column. */
  function SelectTail(): (s: string)
    ensures Flat(s)
  {
    CaseTest() + CaseResult()
  }

  /** The line break and 19 spaces the lead query puts after `la.deadline_at,`, and the `is_overdue` column. */
  function SelectRest(): (s: string)
    ensures Plain(s) && |s| > 0 && s[0] == '\n'
  {
    "\n" + Spaces(19) + SelectTail()
  }

  /** The select list as the lead query lays it out. */
  function SelectList(): string
  {
    SelectHead() + SelectRest()
  }

  /** The select list the two replacements look for, on one line. */
  function OneLineList(): string
  {
    SelectHead() + " " + SelectTail()
  }

  /** The select list of the total. */
  function CountList(): (s: string)
    ensures |s| > 13 && s[0] == 'S' && s[13] == '*'
  {
    var a, b := "SELECT COUNT(", "*) as total";
    assert |a| == 13 && a[0] == 'S' && b[0] == '*';
    a + b
  }

  /** The ordering of the lead query. */
  function OrderBy(): (s: string)
    ensures |s| > 7 && s[7] == 'B' && '\n' !in s && '*' !in s
  {
    var a, b, c := " ORDER BY", " l.created_", "at DESC";
    assert |a| == 9 && a[7] == 'B' && '\n' !in a && '*' !in a;
    assert '\n' !in b && '*' !in b;
    assert '\n' !in c && '*' !in c;
    a + b + c
  }

  /** The select list of the counts per status. */
  function StatusList(): string
  {
    "SELECT " + "l.status, " + "COUNT(*) " + "as count"
  }

  /** The grouping of the counts per status. */
  function GroupByStatus(): string
  {
    " GROUP BY" + " l.status"
  }

  /** An indented line of the query. */
  function Line(indent: nat, text: string): (s: string)
    requires Plain(text)
    ensures Plain(s) && |s| > 0 && s[|s| - 1] == '\n'
  {
    Spaces(indent) + text + "\n"
  }

  function FromLine(): (s: string)
    ensures Plain(s)
  {
    assert Plain("FROM leads l");
    Line(12, "FROM leads l")
  }

  /** The two `LEFT JOIN` lines: the submitter, and the lead's assignments. */
  function JoinLines(): (s: string)
    ensures Plain(s)
  {
    var a, b, c, d, e, g := "LEFT JOIN ", "users u ", "ON l.", "submitted_", "by_user_id", " = u.id";
    var h, k, m, n, p := "lead_", "assignments ", "la ON ", "l.id = ", "la.lead_id ";
    assert Plain(a);
    assert Plain(b);
    assert Plain(c);
    assert Plain(d);
    assert Plain(e);
    assert Plain(g);
    assert Plain(h);
    assert Plain(k);
    assert Plain(m);
    assert Plain(n);
    assert Plain(p);
    Line(12, a + b + c + d + e + g) + Line(12, a + h + k + m + n + p)
  }

  /** The conditions of the assignment join: a pending assignment, with the latest deadline. */
  function ConditionLines(): (s: string)
    ensures Plain(s)
  {
    var a, b, c, d, e := "AND ", "la.status ", "= 'pending' ", "la.deadline", "_at = (";
    assert Plain(a);
    assert Plain(b);
    assert Plain(c);
    assert Plain(d);
    assert Plain(e);
    Line(16, a + b + c) + Line(16, a + d + e)
  }

  function LatestLine(): (s: string)
    ensures Plain(s)
  {
    var a, b, c, d, e, g := "SELECT ", "MAX(", "deadline_at", ") FROM ", "lead_", "assignments ";
    assert Plain(a);
    assert Plain(b);
    assert Plain(c);
    assert Plain(d);
    assert Plain(e);
    assert Plain(g);
    Line(20, a + b + c + d + e + g)
  }

  function LatestWhereLine(): (s: string)
    ensures Plain(s)
  {
    var a, b, c, d, e := "WHERE ", "lead_id = ", "l.id ", "AND status ", "= 'pending'";
    assert Plain(a);
    assert Plain(b);
    assert Plain(c);
    assert Plain(d);
    assert Plain(e);
    Line(20, a + b + c + d + e)
  }

  /**
   * From the end of the select list to the end of the join on the pending
   * assignment with the latest deadline.
   */
  function Joins(): (s: string)
    ensures Plain(s)
  {
    assert Plain(")");
    "\n" + FromLine() + JoinLines() + ConditionLines()
      + LatestLine() + LatestWhereLine() + Line(16, ")")
  }

  /** `WHERE l.submitted_by_user_id = %s`. */
  function SubmitterWhere(): (s: string)
    ensures Plain(s)
  {
    var a, b, c, d := "WHERE l.", "submitted_", "by_user_id", " = %s";
    assert Plain(a);
    assert Plain(b);
    assert Plain(c);
    assert Plain(d);
    a + b + c + d
  }

  /** `WHERE l.assigned_bd_id = %s`. */
  function AssigneeWhere(): (s: string)
    ensures Plain(s)
  {
    var a, b, c := "WHERE l.", "assigned_", "bd_id = %s";
    assert Plain(a);
    assert Plain(b);
    assert Plain(c);
    a + b + c
  }

  /** The `WHERE` line of each role's lead query: marketers see what they submitted, BD users what they were given. */
  function WhereLine(role: Role): (s: string)
    ensures Plain(s) && |s| > 0 && s[|s| - 1] == '\n'
  {
    match role
    case Marketer => Line(12, SubmitterWhere())
    case BdSales => Line(12, AssigneeWhere())
    case _ =>
      assert Plain("WHERE 1=1");
      Line(12, "WHERE 1=1")
  }

  /** Which of the dashboard's filter arguments are non-empty. */
  datatype Filters = Filters(status: bool, service: bool, submitter: bool, dateFrom: bool, dateTo: bool)

  /** ` AND (l.services_csv LIKE %s OR ... OR l.services_csv = %s)`: three `LIKE` tests and an equality. */
  function ServiceClause(): (s: string)
    ensures '*' !in s
  {
    var open, column, like, or, equal := " AND (", "l.services_", "csv LIKE %s ", "OR ", "csv = %s)";
    assert '*' !in open;
    assert '*' !in column;
    assert '*' !in like;
    assert '*' !in or;
    assert '*' !in equal;
    open + column + like + or + column + like + or + column + like + or + column + equal
  }

  function StatusClause(): (s: string)
    ensures '*' !in s
  {
    var a, b, c := " AND ", "l.status ", "= %s";
    assert '*' !in a;
    assert '*' !in b;
    assert '*' !in c;
    a + b + c
  }

  function SubmitterClause(): (s: string)
    ensures '*' !in s
  {
    var a, b, c, d := " AND l.", "submitted_", "by_user_id", " = %s";
    assert '*' !in a;
    assert '*' !in b;
    assert '*' !in c;
    assert '*' !in d;
    a + b + c + d
  }

  /** ` AND DATE(l.created_at) >= %s` or, with `<=`, the upper bound. */
  function DateClause(op: string): (s: string)
    requires '*' !in op
    ensures '*' !in s
  {
    var a, b, c := " AND DATE(", "l.created_", "at) ";
    assert '*' !in a;
    assert '*' !in b;
    assert '*' !in c;
    a + b + c + op + " %s"
  }

  /** The clauses appended for the filters, in order; the submitter filter only for administrators and managers. */
  function FilterText(role: Role, f: Filters): (s: string)
    ensures '*' !in s
  {
    (if f.status then StatusClause() else "") +
    (if f.service then ServiceClause() else "") +
    (if f.submitter && role in {Admin, Manager} then SubmitterClause() else "") +
    (if f.dateFrom then DateClause(">=") else "") +
    (if f.dateTo then DateClause("<=") else "")
  }

  /** The lead query up to its `WHERE` line. */
  function Head(role: Role): string
  {
    Opening() + SelectList() + Below(role)
  }

  /** The lines after the select list. */
  function Below(role: Role): (s: string)
    ensures Plain(s) && |s| > 0 && s[|s| - 1] == '\n'
  {
    Joins() + WhereLine(role)
  }

  /** The indentation of the closing quotes, the filters and the ordering. */
  function Tail(role: Role, f: Filters): (s: string)
    ensures '*' !in s
  {
    Spaces(8) + FilterText(role, f) + OrderBy()
  }

  /** `base_query` once the filters and the ordering are appended. */
  function BaseQuery(role: Role, f: Filters): string
  {
    Head(role) + Tail(role, f)
  }

  /** `base_query.replace(' ORDER BY l.created_at DESC', '')`. */
  function Unordered(role: Role, f: Filters): string
  {
    ReplaceAll(BaseQuery(role, f), OrderBy(), "")
  }

  /** `count_query` and, with `StatusList`, `status_count_query` before its `GROUP BY`: the one-line list replaced. */
  function RewriteAsWritten(role: Role, f: Filters, list: string): string
  {
    ReplaceAll(Unordered(role, f), OneLineList(), list)
  }

  /** The same rewrite looking for the select list as the query lays it out. */
  function Rewrite(role: Role, f: Filters, list: string): string
  {
    ReplaceAll(Unordered(role, f), SelectList(), list)
  }

  /** `status_count_query` as written. */
  function StatusQueryAsWritten(role: Role, f: Filters): string
  {
    RewriteAsWritten(role, f, StatusList()) + GroupByStatus()
  }

  /** `status_count_query` with the select list matched as laid out. */
  function StatusQuery(role: Role, f: Filters): string
  {
    Rewrite(role, f, StatusList()) + GroupByStatus()
  }

  // ---------------------------------------------------------------- text facts

  /** In `m + b`, with no '*' in `b`, the stars are those of `m`. */
  lemma StarsOf(m: string, b: string, at: nat)
    requires '*' !in b && StarOnlyAt(m, at)
    ensures StarOnlyAt(m + b, at)
  {
    forall i | 0 <= i < |m + b|
      ensures (m + b)[i] == '*' ==> i == at
    {
      if i >= |m| {
        assert (m + b)[i] == b[i - |m|];
      }
    }
  }

  /** In `o + m`, with no '*' in `o`, the stars are those of `m`, moved along by `|o|`. */
  lemma StarsAfter(o: string, m: string, at: nat)
    requires '*' !in o && StarOnlyAt(m, at)
    ensures StarOnlyAt(o + m, |o| + at)
  {
    forall i | 0 <= i < |o + m|
      ensures (o + m)[i] == '*' ==> i == |o| + at
    {
      if i < |o| {
        assert (o + m)[i] == o[i];
      } else {
        assert (o + m)[i] == m[i - |o|];
      }
    }
  }

  /**
   * A pattern whose '*' at `star` can only sit over the one '*' of `h` at
   * `k0 + star`, and which disagrees with `h` at `j` from there, does not
   * occur in `h`.
   */
  lemma {:induction false} PinnedByStar(h: string, p: string, star: nat, k0: nat, j: nat)
    requires star < |p| && p[star] == '*' && j < |p|
    requires StarOnlyAt(h, k0 + star)
    requires k0 + j < |h| ==> h[k0 + j] != p[j]
    ensures !Contains(h, p)
  {
    forall k | 0 <= k <= |h| - |p|
      ensures !OccursAt(h, p, k)
    {
      if k != k0 {
        assert h[k..k + |p|][star] == h[k + star];
      } else {
        assert h[k..k + |p|][j] == h[k + j];
      }
    }
  }

  /** Where the first character of the third piece sits, and the last character of the fourth. */
  lemma IndexInConcat(o: string, a: string, c: string, b: string)
    requires |c| > 0 && |b| > 0
    ensures (o + (a + c) + b)[|o| + |a|] == c[0]
    ensures (o + (a + c) + b)[|o + (a + c) + b| - 1] == b[|b| - 1]
  {
  }

  /**
   * A text made of a start without '*', a select list whose one '*' is at 9,
   * and two stretches without '*', does not contain a pattern with a '*' at
   * 13 whose first character is missing from the start, once the start is
   * at least four characters long.
   */
  lemma NotPinned(o: string, sl: string, b: string, r: string, c: string)
    requires '*' !in o && '*' !in b && '*' !in r && |o| >= 4
    requires StarOnlyAt(sl, 9)
    requires |c| > 13 && c[13] == '*' && c[0] !in o
    ensures !Contains(o + sl + b + r, c)
  {
    StarsAfter(o, sl, 9);
    StarsOf(o + sl, b, |o| + 9);
    StarsOf(o + sl + b, r, |o| + 9);
    var h := o + sl + b + r;
    assert h[|o| - 4] == o[|o| - 4];
    PinnedByStar(h, c, 13, |o| - 4, 0);
  }

  /** A pattern absent from `h`, with a character `r` lacks, leaves `h + r` unchanged when `h` ends outside the pattern. */
  lemma ReplaceAbsentBoth(h: string, r: string, p: string, list: string, c: char)
    requires |p| > 0 && |h| > 0 && h[|h| - 1] !in p
    requires !Contains(h, p) && c in p && c !in r
    ensures ReplaceAll(h + r, p, list) == h + r
  {
    ReplaceAllSplit(h, r, p, list);
    ReplaceAllAbsent(h, p, list);
    MissingCharNoOccurrence(r, p, c);
    ReplaceAllAbsent(r, p, list);
  }

  /** A text starts with its first pieces. */
  lemma PrefixOfPieces(x: string, b: string, r: string)
    ensures StartsWith(x + b + r, x)
  {
    assert (x + b + r)[..|x|] == x;
  }

  /**
   * Replacing `sl` in `o + (sl + rest)`, where no character of `o` starts
   * `sl` and a character of `sl` is missing from `rest`, puts `list` in its
   * place and changes nothing else.
   */
  lemma ReplaceOnce(o: string, sl: string, rest: string, list: string, c: char)
    requires |sl| > 0 && sl[0] !in o && c in sl && c !in rest
    ensures ReplaceAll(o + (sl + rest), sl, list) == o + (list + rest)
  {
    ReplaceAllSkips(o, sl + rest, sl, list);
    ReplaceAllAtStart(rest, sl, list);
    MissingCharNoOccurrence(rest, sl, c);
    ReplaceAllAbsent(rest, sl, list);
  }

  lemma Regroup(a: string, b: string, c: string, d: string)
    ensures a + b + c + d == a + (b + (c + d))
  {
  }

  // ---------------------------------------------------------------- any query of this shape

  /**
   * The shape of the lead query's pieces: the opening `o`, the select list
   * `sh` up to `la.deadline_at,` and `sr` from its line break, the lines `b`
   * below it up to the `WHERE` line, the tail `t` with the filters and the
   * ordering `ob`, and the `is_overdue` column `st`.
   */
  predicate PiecesFit(o: string, sh: string, sr: string, b: string, t: string, ob: string, st: string)
  {
    Plain(o) && 'S' !in o && |o| >= 4 &&
    |sh| > 9 && sh[0] == 'S' && sh[9] == '*' && '\n' !in sh && 'B' !in sh && StarOnlyAt(sh, 9) &&
    Plain(sr) && |sr| > 0 && sr[0] == '\n' &&
    Plain(b) && |b| > 0 && b[|b| - 1] == '\n' &&
    '*' !in t &&
    |ob| > 7 && ob[7] == 'B' && '\n' !in ob &&
    '\n' !in st
  }

  /** The text up to the `WHERE` line: no 'B', its one '*' that of `l.*`, a line break after `la.deadline_at,` and at its end. */
  lemma HeadShape(o: string, sh: string, sr: string, b: string, t: string, ob: string, st: string)
    requires PiecesFit(o, sh, sr, b, t, ob, st)
    ensures var h := o + (sh + sr) + b;
      'B' !in h && StarOnlyAt(h, |o| + 9) && h[|o| + |sh|] == '\n' && h[|h| - 1] == '\n'
  {
    StarsOf(sh, sr, 9);
    StarsAfter(o, sh + sr, 9);
    StarsOf(o + (sh + sr), b, |o| + 9);
    IndexInConcat(o, sh, sr, b);
  }

  /** Dropping the ordering leaves the text up to the `WHERE` line alone, and puts no '*' in the rest. */
  lemma UnorderedFor(o: string, sh: string, sr: string, b: string, t: string, ob: string, st: string)
    requires PiecesFit(o, sh, sr, b, t, ob, st)
    ensures var h := o + (sh + sr) + b;
      ReplaceAll(h + t, ob, "") == h + ReplaceAll(t, ob, "") && '*' !in ReplaceAll(t, ob, "")
  {
    var h := o + (sh + sr) + b;
    HeadShape(o, sh, sr, b, t, ob, st);
    assert ob[7] in ob;
    MissingCharNoOccurrence(h, ob, 'B');
    ReplaceAllAbsent(h, ob, "");
    ReplaceAllSplit(h, t, ob, "");
    ReplaceAllKeepsOut(t, ob, "", '*');
  }

  /** With the ordering dropped, the one-line list does not occur, so replacing it changes nothing. */
  lemma KeepsListFor(o: string, sh: string, sr: string, b: string, t: string, ob: string, st: string, list: string)
    requires PiecesFit(o, sh, sr, b, t, ob, st)
    ensures var u := ReplaceAll(o + (sh + sr) + b + t, ob, "");
      ReplaceAll(u, sh + " " + st, list) == u
  {
    var h := o + (sh + sr) + b;
    var p := sh + " " + st;
    HeadShape(o, sh, sr, b, t, ob, st);
    UnorderedFor(o, sh, sr, b, t, ob, st);
    assert p[9] == '*' && p[|sh|] == ' ';
    PinnedByStar(h, p, 9, |o|, |sh|);
    ReplaceAbsentBoth(h, ReplaceAll(t, ob, ""), p, list, '*');
  }

  /** With the ordering dropped, a list with a '*' at 13 and a start the opening lacks occurs nowhere. */
  lemma LacksListFor(o: string, sh: string, sr: string, b: string, t: string, ob: string, st: string, c: string)
    requires PiecesFit(o, sh, sr, b, t, ob, st)
    requires |c| > 13 && c[13] == '*' && c[0] !in o
    ensures !Contains(ReplaceAll(o + (sh + sr) + b + t, ob, ""), c)
  {
    UnorderedFor(o, sh, sr, b, t, ob, st);
    StarsOf(sh, sr, 9);
    NotPinned(o, sh + sr, b, ReplaceAll(t, ob, ""), c);
  }

  /** With the ordering dropped, replacing the select list as laid out puts `list` in its place and changes nothing else. */
  lemma ReplacesListFor(o: string, sh: string, sr: string, b: string, t: string, ob: string, st: string, list: string)
    requires PiecesFit(o, sh, sr, b, t, ob, st)
    ensures var r := ReplaceAll(t, ob, "");
      ReplaceAll(ReplaceAll(o + (sh + sr) + b + t, ob, ""), sh + sr, list) == o + (list + (b + r))
    ensures StartsWith(o + (list + (b + ReplaceAll(t, ob, ""))), o + list)
  {
    var r := ReplaceAll(t, ob, "");
    UnorderedFor(o, sh, sr, b, t, ob, st);
    Regroup(o, sh + sr, b, r);
    assert (sh + sr)[0] == 'S' && (sh + sr)[9] == '*';
    ReplaceOnce(o, sh + sr, b + r, list, '*');
    Regroup(o, list, b, r);
    PrefixOfPieces(o + list, b, r);
  }

  // ---------------------------------------------------------------- the rewrites

  /** The dashboard's lead query has the shape above, for every role and filter. */
  lemma PiecesOfLeadQuery(role: Role, f: Filters)
    ensures PiecesFit(Opening(), SelectHead(), SelectRest(), Below(role), Tail(role, f), OrderBy(), SelectTail())
  {
  }

  /**
   * As written, the select-list replacement changes nothing: the count query
   * is the lead query with its ordering dropped, its select list intact.
   */
  lemma RewriteAsWrittenKeepsList(role: Role, f: Filters, list: string)
    ensures RewriteAsWritten(role, f, list) == Unordered(role, f)
  {
    PiecesOfLeadQuery(role, f);
    KeepsListFor(Opening(), SelectHead(), SelectRest(), Below(role), Tail(role, f), OrderBy(), SelectTail(), list);
  }

  /**
   * So `SELECT COUNT(*) as total` appears nowhere in the count query as
   * written, and the row it returns has no `total` column to read.
   */
  lemma CountAsWrittenLacksTotal(role: Role, f: Filters)
    ensures !Contains(RewriteAsWritten(role, f, CountList()), CountList())
  {
    RewriteAsWrittenKeepsList(role, f, CountList());
    PiecesOfLeadQuery(role, f);
    LacksListFor(Opening(), SelectHead(), SelectRest(), Below(role), Tail(role, f), OrderBy(), SelectTail(), CountList());
  }

  /** The lead query's instance of `ReplacesListFor`. */
  lemma ReplacedBy(role: Role, f: Filters, list: string)
    ensures var r := ReplaceAll(Tail(role, f), OrderBy(), "");
      Rewrite(role, f, list) == Opening() + (list + (Below(role) + r)) &&
      StartsWith(Opening() + (list + (Below(role) + r)), Opening() + list)
  {
    PiecesOfLeadQuery(role, f);
    ReplacesListFor(Opening(), SelectHead(), SelectRest(), Below(role), Tail(role, f), OrderBy(), SelectTail(), list);
  }

  /**
   * Matched as laid out, the rewrite replaces the select list and nothing
   * else: the count query is the lead query's text with `list` in place of
   * its select list and without its ordering.
   */
  lemma RewriteReplacesList(role: Role, f: Filters, list: string)
    ensures var r := ReplaceAll(Tail(role, f), OrderBy(), "");
      Rewrite(role, f, list) == Opening() + (list + (Below(role) + r))
    ensures StartsWith(Rewrite(role, f, CountList()), Opening() + CountList())
  {
    ReplacedBy(role, f, list);
    ReplacedBy(role, f, CountList());
  }

  /**
   * Likewise for the counts per status: as written the grouped query still
   * selects the lead rows, with no `count` column; matched as laid out it
   * selects each status and its count.
   */
  lemma StatusRewrites(role: Role, f: Filters)
    ensures StatusQueryAsWritten(role, f) == Unordered(role, f) + GroupByStatus()
    ensures StatusQuery(role, f) ==
      Opening() + (StatusList() + (Below(role) + ReplaceAll(Tail(role, f), OrderBy(), ""))) + GroupByStatus()
  {
    StatusAsWritten(role, f);
    StatusLaidOut(role, f);
  }

  /** The grouped query as written: the lead rows, ordering dropped, grouped. */
  lemma StatusAsWritten(role: Role, f: Filters)
    ensures StatusQueryAsWritten(role, f) == Unordered(role, f) + GroupByStatus()
  {
    RewriteAsWrittenKeepsList(role, f, StatusList());
  }

  /** The grouped query with the select list matched as laid out. */
  lemma StatusLaidOut(role: Role, f: Filters)
    ensures StatusQuery(role, f) ==
      Opening() + (StatusList() + (Below(role) + ReplaceAll(Tail(role, f), OrderBy(), ""))) + GroupByStatus()
  {
    ReplacedBy(role, f, StatusList());
  }
}
