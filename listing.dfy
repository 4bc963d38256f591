/** What every list endpoint does after filtering: order the rows by a key, newest or most voted
    first (OrderByDescending), then cut out one page with Skip((PageNumber - 1) * PageSize) and
    Take(PageSize), and report the page count in a PaginationMetadata header. */
module Listing {
  import opened Pagination
  import opened Tables

  /** Non-increasing by key. */
  ghost predicate SortedDesc<T>(s: seq<T>, key: T -> int) {
    forall i, j :: 0 <= i < j < |s| ==> key(s[i]) >= key(s[j])
  }

  /** Places x before the first row whose key is smaller than its own. */
  function Insert<T>(x: T, s: seq<T>, key: T -> int): (r: seq<T>)
    ensures |r| == |s| + 1
    ensures multiset(r) == multiset(s) + multiset{x}
  {
    if s == [] then [x]
    else if key(s[0]) < key(x) then [x] + s
    else
      assert s == [s[0]] + s[1..];
      [s[0]] + Insert(x, s[1..], key)
  }

  /** Inserting into an ordered list keeps it ordered. */
  lemma {:induction false} InsertSorted<T>(x: T, s: seq<T>, key: T -> int)
    requires SortedDesc(s, key)
    ensures SortedDesc(Insert(x, s, key), key)
    ensures Insert(x, s, key)[0] == x || Insert(x, s, key)[0] == s[0]
  {
    if s != [] && key(s[0]) >= key(x) {
      InsertSorted(x, s[1..], key);
      var r := Insert(x, s, key);
      assert r == [s[0]] + Insert(x, s[1..], key);
      forall i, j | 0 <= i < j < |r| ensures key(r[i]) >= key(r[j]) {
        if i == 0 && j > 0 {
          assert r[j] in multiset(Insert(x, s[1..], key));
          assert r[j] == x || r[j] in multiset(s[1..]);
        }
      }
    }
  }

  /** OrderByDescending(key): the rows in non-increasing key order, nothing added or lost. */
  function SortDesc<T>(s: seq<T>, key: T -> int): (r: seq<T>)
    ensures SortedDesc(r, key)
    ensures multiset(r) == multiset(s)
    ensures |r| == |s|
  {
    if s == [] then []
    else
      assert s == [s[0]] + s[1..];
      var rest := SortDesc(s[1..], key);
      InsertSorted(s[0], rest, key);
      Insert(s[0], rest, key)
  }

  /** How many rows the requested page skips. */
  function Skipped(pageNumber: int, pageSize: int): (n: int)
    requires pageNumber >= 1 && pageSize >= 1
    ensures n >= 0 && n == (pageNumber - 1) * pageSize
  {
    (pageNumber - 1) * pageSize
  }

  /** Skip((pageNumber - 1) * pageSize).Take(pageSize). */
  function Page<T>(s: seq<T>, pageNumber: int, pageSize: int): (r: seq<T>)
    requires pageNumber >= 1 && pageSize >= 1
    ensures |r| == if Skipped(pageNumber, pageSize) >= |s| then 0
                   else if |s| - Skipped(pageNumber, pageSize) < pageSize then |s| - Skipped(pageNumber, pageSize)
                   else pageSize
    ensures forall i :: 0 <= i < |r| ==> r[i] == s[Skipped(pageNumber, pageSize) + i]
  {
    var skip := Skipped(pageNumber, pageSize);
    if skip >= |s| then []
    else if skip + pageSize <= |s| then s[skip..skip + pageSize]
    else s[skip..]
  }

  /** Every row appears on exactly the page its position calls for: row k is entry k % size of
      page k / size + 1. Together with the bound on the page length this says the pages cut the
      ordered listing into consecutive pieces with nothing skipped and nothing repeated. */
  lemma RowOnItsPage<T>(s: seq<T>, pageSize: int, k: int)
    requires pageSize >= 1 && 0 <= k < |s|
    ensures k % pageSize < |Page(s, k / pageSize + 1, pageSize)|
    ensures Page(s, k / pageSize + 1, pageSize)[k % pageSize] == s[k]
  {
    var p := k / pageSize;
    assert p * pageSize + k % pageSize == k;
    assert (p + 1 - 1) * pageSize == p * pageSize;
  }

  /** The page a client asks for is empty exactly when its number exceeds the page count the
      metadata header reports. */
  lemma PageEmptyIffBeyondTotal<T>(s: seq<T>, pageNumber: int, pageSize: int)
    requires pageNumber >= 1 && pageSize >= 1
    ensures Page(s, pageNumber, pageSize) == [] <==> pageNumber > Create(|s|, pageNumber, pageSize).totalPages
  {
    var t := Create(|s|, pageNumber, pageSize).totalPages;
    if pageNumber > t {
      assert (pageNumber - 1) * pageSize >= t * pageSize;
    } else {
      assert (pageNumber - 1) * pageSize <= (t - 1) * pageSize;
    }
  }

  /** HasNext in the header holds exactly when the following page has rows. */
  lemma HasNextIffNextPageNonEmpty<T>(s: seq<T>, pageNumber: int, pageSize: int)
    requires pageNumber >= 1 && pageSize >= 1
    ensures Create(|s|, pageNumber, pageSize).HasNext() <==> Page(s, pageNumber + 1, pageSize) != []
  {
    HasNextIffRowsRemain(|s|, pageNumber, pageSize);
    assert (pageNumber + 1 - 1) * pageSize == pageNumber * pageSize;
  }

  /** What a list endpoint returns: one page of the ordered rows and the header built from the
      number of rows that matched. */
  datatype Listed<T> = Listed(rows: seq<T>, pagination: PaginationMetadata)

  /** new PaginationMetadata(list.Count(), PageNumber, PageSize), then the page of the list. */
  function Paginate<T>(ordered: seq<T>, pageNumber: int, pageSize: int): (r: Listed<T>)
    requires pageNumber >= 1 && pageSize >= 1
    ensures r.pagination.totalCount == |ordered| && r.pagination.currentPage == pageNumber
    ensures pageSize * (r.pagination.totalPages - 1) < |ordered| <= pageSize * r.pagination.totalPages
    ensures r.rows == Page(ordered, pageNumber, pageSize)
  {
    Listed(Page(ordered, pageNumber, pageSize), Create(|ordered|, pageNumber, pageSize))
  }

  /** HasPrevious in the header holds exactly when the page skips some rows. */
  lemma HasPreviousIffSkips(totalCount: int, pageNumber: int, pageSize: int)
    requires pageNumber >= 1 && pageSize >= 1
    ensures Create(totalCount, pageNumber, pageSize).HasPrevious() <==> Skipped(pageNumber, pageSize) > 0
  {
    if pageNumber > 1 {
      assert (pageNumber - 1) * pageSize >= pageSize;
    }
  }

  /** Rows on a page of the ordered rows come from those rows. */
  lemma PageRowsFrom<T>(s: seq<T>, pageNumber: int, pageSize: int)
    requires pageNumber >= 1 && pageSize >= 1
    ensures multiset(Page(s, pageNumber, pageSize)) <= multiset(s)
  {
    var skip := Skipped(pageNumber, pageSize);
    var p := Page(s, pageNumber, pageSize);
    if skip < |s| {
      var end := skip + |p|;
      assert p == s[skip..end];
      assert s == s[..skip] + s[skip..end] + s[end..];
    }
  }

  /** A page of an ordered list is itself ordered. */
  lemma PageSorted<T>(s: seq<T>, key: T -> int, pageNumber: int, pageSize: int)
    requires pageNumber >= 1 && pageSize >= 1 && SortedDesc(s, key)
    ensures SortedDesc(Page(s, pageNumber, pageSize), key)
  {
  }

  /** The list endpoint shape: filter the table, order by key descending, then paginate. Every
      row returned is a row of the table that passes the filter, the rows come in key order, and
      the header counts every row that passed. */
  function Select<T>(rows: seq<T>, keep: T -> bool, key: T -> int, pageNumber: int, pageSize: int): (r: Listed<T>)
    requires pageNumber >= 1 && pageSize >= 1
    ensures r.rows == Page(SortDesc(Where(rows, keep), key), pageNumber, pageSize)
    ensures r.pagination == Create(|Where(rows, keep)|, pageNumber, pageSize)
    ensures r.pagination.totalCount == |Where(rows, keep)| && r.pagination.currentPage == pageNumber
    ensures |r.rows| <= pageSize
    ensures forall i :: 0 <= i < |r.rows| ==> r.rows[i] in rows && keep(r.rows[i])
    ensures SortedDesc(r.rows, key)
  {
    var ordered := SortDesc(Where(rows, keep), key);
    var page := Page(ordered, pageNumber, pageSize);
    PageRowsFrom(ordered, pageNumber, pageSize);
    PageSorted(ordered, key, pageNumber, pageSize);
    assert forall i :: 0 <= i < |page| ==> page[i] in Where(rows, keep) by {
      forall i | 0 <= i < |page| ensures page[i] in Where(rows, keep) {
        assert page[i] in multiset(page);
      }
    }
    assert forall i :: 0 <= i < |page| ==> page[i] in rows && keep(page[i]) by {
      forall i | 0 <= i < |page| ensures page[i] in rows && keep(page[i]) {
        WhereMembers(rows, keep, page[i]);
      }
    }
    Paginate(ordered, pageNumber, pageSize)
  }

  /** Every row of a list is on some page of it. */
  lemma OnSomePage<T>(s: seq<T>, pageSize: int, k: int)
    requires pageSize >= 1 && 0 <= k < |s|
    ensures exists p :: p >= 1 && s[k] in Page(s, p, pageSize)
  {
    var p := k / pageSize + 1;
    assert p >= 1 by {
      assert k / pageSize >= 0;
    }
    RowOnItsPage(s, pageSize, k);
    var page := Page(s, p, pageSize);
    assert s[k] == page[k % pageSize];
  }

  /** No matching row is lost to paging: each row of the table that passes the filter is listed
      on some page. */
  lemma SelectListsEveryMatch<T>(rows: seq<T>, keep: T -> bool, key: T -> int, pageSize: int, x: T)
    requires pageSize >= 1 && x in rows && keep(x)
    ensures exists p :: p >= 1 && x in Select(rows, keep, key, p, pageSize).rows
  {
    WhereMembers(rows, keep, x);
    var ordered := SortDesc(Where(rows, keep), key);
    assert x in multiset(ordered);
    var k :| 0 <= k < |ordered| && ordered[k] == x;
    OnSomePage(ordered, pageSize, k);
    var p :| p >= 1 && x in Page(ordered, p, pageSize);
    assert x in Select(rows, keep, key, p, pageSize).rows;
  }
}
