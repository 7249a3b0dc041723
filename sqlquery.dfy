/**
 * `execute_query`, the helper some handlers use to run SQL: the
 * queries are written with the PostgreSQL driver's `%s` placeholders, and
 * on SQLite, when parameters are passed, every `%s` is rewritten to the
 * `?` SQLite expects before the statement is handed to the cursor.
 */
module SqlQuery {
  import opened Wrappers
  import opened Text

  const FormatMark := "%s"
  const QMark := "?"

  /** `sql.replace('%s', '?')`. */
  function ToQMarks(sql: string): string
  {
    ReplaceAll(sql, FormatMark, QMark)
  }

  /** How often a character appears. */
  function CharCount(s: string, c: char): nat
  {
    if |s| == 0 then 0 else (if s[0] == c then 1 else 0) + CharCount(s[1..], c)
  }

  lemma {:induction false} CharCountAppend(a: string, b: string, c: char)
    ensures CharCount(a + b, c) == CharCount(a, c) + CharCount(b, c)
    decreases |a|
  {
    if |a| > 0 {
      assert (a + b)[1..] == a[1..] + b;
      CharCountAppend(a[1..], b, c);
    } else {
      assert a + b == b;
    }
  }

  /** The first character of the rewrite: '?' where a `%s` starts, the text's own first character elsewhere. */
  lemma ToQMarksHead(s: string)
    ensures |ToQMarks(s)| > 0 <==> |s| > 0
    ensures |s| > 0 ==> ToQMarks(s)[0] == if |s| >= 2 && s[..2] == FormatMark then '?' else s[0]
  {
  }

  /** After the rewrite no `%s` is left, so no placeholder reaches SQLite in the PostgreSQL syntax. */
  lemma {:induction false} NoFormatMarkLeft(s: string)
    ensures !Contains(ToQMarks(s), FormatMark)
    decreases |s|
  {
    if |s| >= 2 {
      var r := ToQMarks(s);
      if s[..2] == FormatMark {
        var t := ToQMarks(s[2..]);
        NoFormatMarkLeft(s[2..]);
        assert r == QMark + t;
        ShiftedNoMark(QMark, t);
      } else {
        var t := ToQMarks(s[1..]);
        NoFormatMarkLeft(s[1..]);
        assert r == [s[0]] + t;
        if |t| > 0 && s[0] == '%' {
          ToQMarksHead(s[1..]);
          assert t[0] != 's';
        }
        ShiftedNoMark([s[0]], t);
      }
    }
  }

  /** A one-character head that does not start a `%s` with what follows adds no occurrence. */
  lemma ShiftedNoMark(h: string, t: string)
    requires |h| == 1 && !Contains(t, FormatMark)
    requires |t| > 0 && h[0] == '%' ==> t[0] != 's'
    ensures !Contains(h + t, FormatMark)
  {
    var u := h + t;
    forall k | 0 <= k <= |u| - 2
      ensures !OccursAt(u, FormatMark, k)
    {
      if k == 0 {
        assert u[..2] == [h[0], t[0]];
      } else {
        assert u[k..k + 2] == t[k - 1..k + 1];
        assert !OccursAt(t, FormatMark, k - 1);
      }
    }
  }

  /** Each `%s` becomes exactly one '?', and the '?' already in the text stay. */
  lemma {:induction false} ToQMarksCount(s: string)
    ensures CharCount(ToQMarks(s), '?') == CharCount(s, '?') + CountOccurrences(s, FormatMark)
    decreases |s|
  {
    if |s| >= 2 {
      if s[..2] == FormatMark {
        ToQMarksCount(s[2..]);
        CharCountAppend(QMark, ToQMarks(s[2..]), '?');
        assert s == FormatMark + s[2..];
        CharCountAppend(FormatMark, s[2..], '?');
      } else {
        ToQMarksCount(s[1..]);
        CharCountAppend([s[0]], ToQMarks(s[1..]), '?');
        assert s == [s[0]] + s[1..];
        CharCountAppend([s[0]], s[1..], '?');
      }
    }
  }

  /** Without a `%s` the rewrite changes nothing, so the `in` test only saves the work. */
  lemma {:induction false} ToQMarksIdentity(s: string)
    requires !Contains(s, FormatMark)
    ensures ToQMarks(s) == s
    decreases |s|
  {
    if |s| >= 2 {
      assert !OccursAt(s, FormatMark, 0);
      assert !Contains(s[1..], FormatMark) by {
        forall k | 0 <= k <= |s| - 3
          ensures !OccursAt(s[1..], FormatMark, k)
        {
          assert s[1..][k..k + 2] == s[k + 1..k + 3];
          assert !OccursAt(s, FormatMark, k + 1);
        }
      }
      ToQMarksIdentity(s[1..]);
      assert s == [s[0]] + s[1..];
    }
  }

  /** The statement `execute_query` hands to the cursor. */
  function PreparedSql<T>(sql: string, usePostgres: bool, params: Option<seq<T>>): (r: string)
    ensures usePostgres || params.None? ==> r == sql
    ensures !usePostgres && params.Some? ==> !Contains(r, FormatMark)
  {
    if !usePostgres && params.Some? && Contains(sql, FormatMark) then
      NoFormatMarkLeft(sql);
      ToQMarks(sql)
    else sql
  }

  /** The cursor call: `execute(sql)` without parameters, `execute(sql, params)` with them. */
  datatype Call<T> = Execute(sql: string) | ExecuteWith(sql: string, params: seq<T>)

  /** `execute_query`. */
  function ExecuteQuery<T>(sql: string, usePostgres: bool, params: Option<seq<T>>): (c: Call<T>)
    ensures c.Execute? <==> params.None?
    ensures c.Execute? ==> c.sql == sql
    ensures c.ExecuteWith? ==> c.params == params.value && c.sql == PreparedSql(sql, usePostgres, params)
  {
    if params.None? then Execute(sql) else ExecuteWith(PreparedSql(sql, usePostgres, params), params.value)
  }

  /**
   * On SQLite with parameters the statement is the text with every `%s`
   * turned into '?': one '?' placeholder for each `%s` of the original,
   * beside the '?' that were already there, and no `%s` left.
   */
  lemma PreparedPlaceholders<T>(sql: string, params: seq<T>)
    ensures var r := PreparedSql(sql, false, Some(params));
      r == ToQMarks(sql) && !Contains(r, FormatMark) &&
      CharCount(r, '?') == CharCount(sql, '?') + CountOccurrences(sql, FormatMark)
  {
    if !Contains(sql, FormatMark) {
      ToQMarksIdentity(sql);
    }
    ToQMarksCount(sql);
  }
}
