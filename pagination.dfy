/** The page-count header every list endpoint sends back (Models/PaginationMetadata.cs).
    The source divides in double precision and rounds up with Math.Ceiling. For 32-bit operands
    the double quotient never crosses an integer, so the exact rational ceiling is the same number;
    it is written here with integer division. A page size of zero divides by zero in floating
    point and is outside the model. */
module Pagination {

  datatype PaginationMetadata = PaginationMetadata(currentPage: int, totalCount: int, totalPages: int)
  {
    predicate HasPrevious() {
      currentPage > 1
    }

    predicate HasNext() {
      currentPage < totalPages
    }
  }

  /** The least integer not below n / d. Dafny's division rounds towards negative infinity for a
      positive divisor, which is what the two branches use. */
  function CeilDiv(n: int, d: int): (r: int)
    requires d != 0
    ensures d > 0 ==> d * (r - 1) < n <= d * r
    ensures d < 0 ==> d * r <= n < d * (r - 1)
  {
    if d > 0 then -((-n) / d) else -(n / (-d))
  }

  /** new PaginationMetadata(totalCount, currentPage, itemsPerPage) */
  function Create(totalCount: int, currentPage: int, itemsPerPage: int): (m: PaginationMetadata)
    requires itemsPerPage != 0
    ensures m.totalCount == totalCount && m.currentPage == currentPage
    ensures itemsPerPage > 0 ==> itemsPerPage * (m.totalPages - 1) < totalCount <= itemsPerPage * m.totalPages
  {
    PaginationMetadata(currentPage, totalCount, CeilDiv(totalCount, itemsPerPage))
  }

  /** For a positive page size and a non-negative count the page count is the familiar
      (totalCount + itemsPerPage - 1) / itemsPerPage. */
  lemma TotalPagesFormula(totalCount: int, currentPage: int, itemsPerPage: int)
    requires itemsPerPage > 0 && totalCount >= 0
    ensures Create(totalCount, currentPage, itemsPerPage).totalPages == (totalCount + itemsPerPage - 1) / itemsPerPage
  {
    var p := Create(totalCount, currentPage, itemsPerPage).totalPages;
    var q := (totalCount + itemsPerPage - 1) / itemsPerPage;
    var rem := (totalCount + itemsPerPage - 1) % itemsPerPage;
    assert itemsPerPage * q + rem == totalCount + itemsPerPage - 1;
    assert 0 <= rem < itemsPerPage;
    assert itemsPerPage * (q - 1) < totalCount <= itemsPerPage * q;
    CeilUnique(totalCount, itemsPerPage, p, q);
  }

  /** Two integers that both satisfy the ceiling bounds for a positive divisor are equal. */
  lemma CeilUnique(n: int, d: int, a: int, b: int)
    requires d > 0
    requires d * (a - 1) < n <= d * a
    requires d * (b - 1) < n <= d * b
    ensures a == b
  {
    assert d * (a - b) < d by {
      assert d * (a - b) == d * a - d * b;
    }
    assert d * (b - a) < d by {
      assert d * (b - a) == d * b - d * a;
    }
    BelowOne(d, a - b);
    BelowOne(d, b - a);
  }

  lemma BelowOne(d: int, x: int)
    requires d > 0 && d * x < d
    ensures x < 1
  {
    assert d * (x - 1) < 0;
  }

  /** The page count is never negative when the count is not. */
  lemma TotalPagesNonNegative(totalCount: int, currentPage: int, itemsPerPage: int)
    requires itemsPerPage > 0 && totalCount >= 0
    ensures Create(totalCount, currentPage, itemsPerPage).totalPages >= 0
  {
    var p := Create(totalCount, currentPage, itemsPerPage).totalPages;
    assert itemsPerPage * (-p) == -(itemsPerPage * p) <= 0;
    BelowOne(itemsPerPage, -p);
  }

  /** An empty listing has no pages, so no page has a successor. */
  lemma EmptyListingHasNoNext(currentPage: int, itemsPerPage: int)
    requires itemsPerPage > 0 && currentPage >= 1
    ensures Create(0, currentPage, itemsPerPage).totalPages == 0
    ensures !Create(0, currentPage, itemsPerPage).HasNext()
  {
    var p := Create(0, currentPage, itemsPerPage).totalPages;
    CeilUnique(0, itemsPerPage, p, 0);
  }

  /** HasNext holds exactly when some row lies beyond the current page, that is when the next
      page would not be empty. */
  lemma HasNextIffRowsRemain(totalCount: int, currentPage: int, itemsPerPage: int)
    requires itemsPerPage > 0
    ensures Create(totalCount, currentPage, itemsPerPage).HasNext() <==> currentPage * itemsPerPage < totalCount
  {
    var p := Create(totalCount, currentPage, itemsPerPage).totalPages;
    if currentPage < p {
      assert currentPage * itemsPerPage <= (p - 1) * itemsPerPage;
    } else {
      assert p * itemsPerPage <= currentPage * itemsPerPage;
    }
  }

  /** 25 rows in pages of 10 give 3 pages: page 3 is the last and page 1 the first. */
  lemma ExampleTwentyFiveByTen()
    ensures Create(25, 3, 10).totalPages == 3
    ensures !Create(25, 3, 10).HasNext() && Create(25, 3, 10).HasPrevious()
    ensures Create(25, 1, 10).HasNext() && !Create(25, 1, 10).HasPrevious()
  {
  }
}
