/** Paging shared by the two list screens: ten rows per page, a page count
    that is the ceiling of count / 10, a requested page number clamped into
    range, then `Skip((page - 1) * 10).Take(10)`. */
module Paging {
  import opened Tables

  const PageSize := 10

  /** `(int)Math.Ceiling(count / (double)PageSize)`. */
  function TotalPages(count: nat): (r: nat)
    ensures r * PageSize >= count
    ensures r > 0 ==> (r - 1) * PageSize < count
    ensures r == 0 <==> count == 0
  {
    (count + PageSize - 1) / PageSize
  }

  /** A page number below 1 becomes 1; one past the last page becomes the
      last page, unless there are no pages at all. */
  function ClampPage(pageNumber: int, totalPages: nat): (p: int)
    ensures p >= 1
    ensures totalPages > 0 ==> p <= totalPages
    ensures 1 <= pageNumber && (totalPages == 0 || pageNumber <= totalPages) ==> p == pageNumber
    ensures pageNumber < 1 ==> p == 1
    ensures totalPages > 0 && pageNumber > totalPages ==> p == totalPages
  {
    var q := if pageNumber < 1 then 1 else pageNumber;
    if q > totalPages && totalPages > 0 then totalPages else q
  }

  /** Index of the first row of page `p`. */
  function PageStart(p: int): int {
    (p - 1) * PageSize
  }

  /** `Skip(PageStart(p)).Take(PageSize)`. */
  function Page<T>(s: seq<T>, p: int): (r: seq<T>)
    requires p >= 1
    ensures |r| <= PageSize
    ensures |r| == if PageStart(p) >= |s| then 0 else Min(PageSize, |s| - PageStart(p))
    ensures forall i :: 0 <= i < |r| ==> r[i] == s[PageStart(p) + i]
  {
    var lo := if PageStart(p) < |s| then PageStart(p) else |s|;
    var hi := if lo + PageSize < |s| then lo + PageSize else |s|;
    s[lo..hi]
  }

  /** Serial number of the `i`-th row shown on page `p`, counting from 1
      across pages. */
  function SerialNumber(p: int, i: nat): (n: int)
    ensures p >= 1 ==> n >= 1
  {
    PageStart(p) + i + 1
  }

  /** One page of a query: the rows shown, the page shown, the page count
      and the number of matching rows. */
  datatype PageView<T> = PageView(rows: seq<T>, page: int, totalPages: nat, totalCount: nat)

  /** Count, clamp, then skip and take over the rows in display order. */
  function Paginate<T>(ordered: seq<T>, pageNumber: int): (v: PageView<T>)
    ensures v.page >= 1 && |v.rows| <= PageSize
    ensures v.totalCount == |ordered| && v.totalPages == TotalPages(|ordered|)
    ensures forall i :: 0 <= i < |v.rows| ==> 0 <= PageStart(v.page) + i < |ordered| && v.rows[i] == ordered[PageStart(v.page) + i]
  {
    var pages := TotalPages(|ordered|);
    var p := ClampPage(pageNumber, pages);
    PageView(Page(ordered, p), p, pages, |ordered|)
  }

  /** A page shows only rows of the ordered query. */
  lemma PaginateRowsIn<T>(ordered: seq<T>, pageNumber: int)
    ensures forall x :: x in Paginate(ordered, pageNumber).rows ==> x in ordered
  {
    var v := Paginate(ordered, pageNumber);
    forall x | x in v.rows ensures x in ordered {
      var i :| 0 <= i < |v.rows| && v.rows[i] == x;
      assert ordered[PageStart(v.page) + i] == x;
    }
  }

  /** Clamping is idempotent: a clamped page number is left as it is. */
  lemma ClampPageIdempotent(pageNumber: int, totalPages: nat)
    ensures ClampPage(ClampPage(pageNumber, totalPages), totalPages) == ClampPage(pageNumber, totalPages)
  {
  }

  /** Every row lands on exactly one page: row `k` is row `k % 10` of page
      `k / 10 + 1`, that page is within range, and its serial number is
      `k + 1`. */
  lemma EveryRowOnSomePage<T>(s: seq<T>, k: nat)
    requires k < |s|
    ensures 1 <= k / PageSize + 1 <= TotalPages(|s|)
    ensures k % PageSize < |Page(s, k / PageSize + 1)|
    ensures Page(s, k / PageSize + 1)[k % PageSize] == s[k]
    ensures SerialNumber(k / PageSize + 1, k % PageSize) == k + 1
  {
    var p := k / PageSize + 1;
    assert PageStart(p) + k % PageSize == k;
  }

  /** Asking for page `k / 10 + 1` shows that page, with row `k` at
      position `k % 10`. */
  lemma PaginateAt<T>(ordered: seq<T>, k: nat)
    requires k < |ordered|
    ensures Paginate(ordered, k / PageSize + 1).page == k / PageSize + 1
    ensures k % PageSize < |Paginate(ordered, k / PageSize + 1).rows|
    ensures Paginate(ordered, k / PageSize + 1).rows[k % PageSize] == ordered[k]
    ensures PageStart(k / PageSize + 1) + k % PageSize == k
    ensures SerialNumber(k / PageSize + 1, k % PageSize) == k + 1
  {
    EveryRowOnSomePage(ordered, k);
  }

  /** Pages in range are never empty, and only the last page may be short. */
  lemma PagesInRangeAreFilled<T>(s: seq<T>, p: int)
    requires 1 <= p <= TotalPages(|s|)
    ensures 1 <= |Page(s, p)|
    ensures p < TotalPages(|s|) ==> |Page(s, p)| == PageSize
  {
  }

  /** With 25 matching rows there are three pages, the third holds five rows,
      and asking for page 4 shows page 3. */
  lemma PagingExample<T>(s: seq<T>)
    requires |s| == 25
    ensures TotalPages(|s|) == 3
    ensures |Page(s, 3)| == 5
    ensures ClampPage(4, TotalPages(|s|)) == 3
    ensures ClampPage(0, TotalPages(|s|)) == 1
  {
  }
}
