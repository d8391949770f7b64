/** Laravel's length-aware pagination as the payroll listings use it:
    `paginate(n)` answers one page of the rows plus the page number, the
    number of the last page and the total. */
module Pagination {
  import opened Common

  datatype Page<T> = Page(items: seq<T>, currentPage: nat, lastPage: nat, total: nat)

  /** The `page` query parameter: an integer of at least 1, otherwise 1. */
  function ResolvePage(requested: Option<int>): (p: nat)
    ensures p >= 1
    ensures requested.Some? && requested.value >= 1 ==> p == requested.value
    ensures requested.None? || requested.value < 1 ==> p == 1
  {
    if requested.Some? && requested.value >= 1 then requested.value else 1
  }

  lemma MulMonotone(a: nat, b: nat, c: nat)
    requires a <= b
    ensures a * c <= b * c
  {
    assert b * c == a * c + (b - a) * c;
  }

  /** `max(ceil(total / perPage), 1)`. */
  function LastPage(total: nat, perPage: nat): (last: nat)
    requires perPage >= 1
    ensures last >= 1
    ensures total == 0 ==> last == 1
    ensures total > 0 ==> (last - 1) * perPage < total <= last * perPage
  {
    var q := (total + perPage - 1) / perPage;
    var m := (total + perPage - 1) % perPage;
    assert q * perPage + m == total + perPage - 1 && 0 <= m < perPage;
    if q == 0 then 1
    else
      assert (q - 1) * perPage == q * perPage - perPage;
      q
  }

  /** The first row of page `page`. */
  function PageStart(perPage: nat, page: nat): (lo: nat)
    requires page >= 1
  {
    (page - 1) * perPage
  }

  lemma PageStartFacts(rows: nat, perPage: nat, page: nat)
    requires perPage >= 1 && page >= 1
    ensures var last := LastPage(rows, perPage);
      var lo := PageStart(perPage, page);
      && (page <= last && rows > 0 ==> lo < rows)
      && (page > last ==> lo >= rows)
      && (page < last ==> lo + perPage <= rows)
  {
    var last := LastPage(rows, perPage);
    var lo := PageStart(perPage, page);
    if page <= last {
      MulMonotone(page - 1, last - 1, perPage);
    }
    if page > last {
      MulMonotone(last, page - 1, perPage);
    }
    if page < last {
      assert lo + perPage == page * perPage;
      MulMonotone(page, last - 1, perPage);
    }
  }

  /** Page `page` of `rows`, `perPage` rows to a page. */
  function Paginate<T>(rows: seq<T>, perPage: nat, page: nat): (r: Page<T>)
    requires perPage >= 1 && page >= 1
    ensures r.total == |rows| && r.currentPage == page && r.lastPage == LastPage(|rows|, perPage)
    ensures |r.items| <= perPage
    ensures forall j :: 0 <= j < |r.items| ==> PageStart(perPage, page) + j < |rows| && r.items[j] == rows[PageStart(perPage, page) + j]
    ensures page < r.lastPage ==> |r.items| == perPage
    ensures page <= r.lastPage && PageStart(perPage, page) + perPage > |rows| ==> |r.items| == |rows| - PageStart(perPage, page)
    ensures page > r.lastPage ==> r.items == []
  {
    var lo := PageStart(perPage, page);
    var last := LastPage(|rows|, perPage);
    PageStartFacts(|rows|, perPage, page);
    if lo >= |rows| then
      Page([], page, last, |rows|)
    else
      var hi := if lo + perPage <= |rows| then lo + perPage else |rows|;
      Page(rows[lo..hi], page, last, |rows|)
  }

  /** Every row of the listing appears on exactly the page its position
      names: row `k` is item `k % perPage` of page `k / perPage + 1`. */
  lemma PageOfRow<T>(rows: seq<T>, perPage: nat, k: nat)
    requires perPage >= 1 && k < |rows|
    ensures var p := Paginate(rows, perPage, k / perPage + 1);
      k % perPage < |p.items| && p.items[k % perPage] == rows[k]
  {
    var page := k / perPage + 1;
    var lo := PageStart(perPage, page);
    assert lo + k % perPage == k;
    var last := LastPage(|rows|, perPage);
    PageStartFacts(|rows|, perPage, page);
    assert page <= last;
  }
}
