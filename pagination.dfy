/**
 * The dashboard's paging of the filtered lead list: fifty rows a page, page
 * numbers from 1, `LIMIT 50 OFFSET (page − 1)·50` on the ordered rows and
 * `⌈total / 50⌉` pages.
 */
module Pagination {
  import opened Wrappers

  const PerPage := 50

  function Offset(page: int): int
  {
    (page - 1) * PerPage
  }

  /** `(total + per_page − 1) // per_page`. */
  function TotalPages(total: nat): nat
  {
    (total + PerPage - 1) / PerPage
  }

  /** `TotalPages` is the ceiling of total / 50: the pages hold every row and the last one is not empty. */
  lemma TotalPagesIsCeiling(total: nat)
    ensures TotalPages(total) * PerPage >= total
    ensures TotalPages(total) > 0 ==> (TotalPages(total) - 1) * PerPage < total
    ensures TotalPages(total) == 0 <==> total == 0
  {
  }

  /** The offset is negative exactly for the pages below 1. */
  lemma OffsetNonNegative(page: int)
    ensures Offset(page) >= 0 <==> page >= 1
  {
  }

  /**
   * The rows PostgreSQL returns for `LIMIT 50 OFFSET Offset(page)`; None
   * when the offset is negative, which PostgreSQL refuses with an error.
   */
  function PageRows<T>(rows: seq<T>, page: int): (r: Option<seq<T>>)
    ensures r.Some? <==> page >= 1
    ensures r.Some? ==> |r.value| <= PerPage
  {
    var off := Offset(page);
    if off < 0 then None
    else
      var lo := if off < |rows| then off else |rows|;
      var hi := if off + PerPage < |rows| then off + PerPage else |rows|;
      Some(rows[lo..hi])
  }

  function PagesUpTo<T>(rows: seq<T>, k: nat): seq<T>
  {
    if k == 0 then [] else PagesUpTo(rows, k - 1) + PageRows(rows, k).value
  }

  /** Pages 1..k read back to back are the first 50·k rows. */
  lemma {:induction false} PagesUpToIsPrefix<T>(rows: seq<T>, k: nat)
    ensures PagesUpTo(rows, k) == rows[..if k * PerPage < |rows| then k * PerPage else |rows|]
  {
    if k > 0 {
      PagesUpToIsPrefix(rows, k - 1);
      var a := if (k - 1) * PerPage < |rows| then (k - 1) * PerPage else |rows|;
      var b := if k * PerPage < |rows| then k * PerPage else |rows|;
      assert Offset(k) == (k - 1) * PerPage;
      assert PageRows(rows, k).value == rows[a..b];
      assert rows[..a] + rows[a..b] == rows[..b];
    }
  }

  /** Reading pages 1 to TotalPages in turn shows every row once, in order. */
  lemma PagesCoverRows<T>(rows: seq<T>)
    ensures PagesUpTo(rows, TotalPages(|rows|)) == rows
  {
    TotalPagesIsCeiling(|rows|);
    PagesUpToIsPrefix(rows, TotalPages(|rows|));
  }

  /** The page a row index falls on. */
  function PageOf(i: nat): int
  {
    i / PerPage + 1
  }

  /** Every row of the list is on exactly one page, and that page exists. */
  lemma EachRowOnOnePage(total: nat, i: nat)
    requires i < total
    ensures 1 <= PageOf(i) <= TotalPages(total)
    ensures Offset(PageOf(i)) <= i < Offset(PageOf(i)) + PerPage
    ensures forall p :: Offset(p) <= i < Offset(p) + PerPage ==> p == PageOf(i)
  {
    TotalPagesIsCeiling(total);
    var q := i / PerPage;
    assert q * PerPage <= i < q * PerPage + PerPage;
    forall p | Offset(p) <= i < Offset(p) + PerPage
      ensures p == PageOf(i)
    {
      assert (p - 1) * PerPage <= i < (p - 1) * PerPage + PerPage;
    }
  }
}
