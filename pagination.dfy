/** Pagination arithmetic of the list endpoint (GET /api/User): the number of
    pages, the offset of a page and the window of records it shows. */
module Pagination {

  /** Defaults and bound applied to the `page` and `pageSize` query parameters. */
  const DefaultPage: int := 1
  const DefaultPageSize: int := 10
  const MaxPageSize: int := 100

  /** The `pagination` object of a list response. */
  datatype PaginationInfo = PaginationInfo(
    currentPage: int,
    pageSize: int,
    totalUsers: nat,
    totalPages: nat,
    hasNext: bool,
    hasPrevious: bool)

  function Min(a: int, b: int): int { if a <= b then a else b }

  function Max(a: int, b: int): int { if a <= b then b else a }

  /** Monotonicity of multiplication by a positive factor. */
  lemma MulMonotone(a: int, b: int, c: int)
    requires a <= b && c >= 1
    ensures a * c <= b * c
  {
  }

  /** The number of pages of `pageSize` records that hold `total` records:
      the ceiling of total / pageSize, that is the least n with
      n * pageSize >= total. */
  function TotalPages(total: nat, pageSize: int): (n: nat)
    requires pageSize >= 1
    ensures n * pageSize >= total
    ensures n == 0 || (n - 1) * pageSize < total
    ensures n == 0 <==> total == 0
  {
    var n := (total + pageSize - 1) / pageSize;
    var m := (total + pageSize - 1) % pageSize;
    assert n * pageSize + m == total + pageSize - 1;
    assert (n - 1) * pageSize == n * pageSize - pageSize;
    n
  }

  /** Index of the first record shown on `page` (pages count from 1). */
  function Offset(page: int, pageSize: int): (skip: nat)
    requires page >= 1 && pageSize >= 1
    ensures skip < page * pageSize
    ensures skip + pageSize == page * pageSize
  {
    MulMonotone(1, page, pageSize);
    (page - 1) * pageSize
  }

  /** What Skip(skip).Take(take) returns from an ordered sequence: the
      records at positions skip, skip + 1, ... , at most `take` of them. */
  function Window<T>(s: seq<T>, skip: nat, take: nat): (w: seq<T>)
    ensures |w| == Min(take, Max(0, |s| - skip))
    ensures forall i :: 0 <= i < |w| ==> w[i] == s[skip + i]
  {
    if skip >= |s| then [] else s[skip..Min(skip + take, |s|)]
  }

  /** A page shows at least one record exactly when its number is between
      1 and the number of pages. */
  lemma PageNonEmptyIff(total: nat, pageSize: int, page: int)
    requires pageSize >= 1 && page >= 1
    ensures Offset(page, pageSize) < total <==> page <= TotalPages(total, pageSize)
  {
    var n := TotalPages(total, pageSize);
    var skip := Offset(page, pageSize);
    if page <= n {
      MulMonotone(page - 1, n - 1, pageSize);
    } else {
      MulMonotone(n, page - 1, pageSize);
    }
  }

  /** `hasNext` (page < totalPages) holds exactly when some record lies
      beyond the current page, i.e. when the next page is not empty. */
  lemma HasNextIffNextPageNonEmpty<T>(s: seq<T>, pageSize: int, page: int)
    requires pageSize >= 1 && page >= 1
    ensures page < TotalPages(|s|, pageSize) <==> page * pageSize < |s|
    ensures page < TotalPages(|s|, pageSize) <==> Window(s, Offset(page + 1, pageSize), pageSize) != []
  {
    PageNonEmptyIff(|s|, pageSize, page + 1);
  }

  /** The concatenation of pages `page`, `page + 1`, ... up to the first
      empty one. */
  function PagesFrom<T>(s: seq<T>, pageSize: int, page: int): seq<T>
    requires pageSize >= 1 && page >= 1
    decreases |s| - Offset(page, pageSize)
  {
    var skip := Offset(page, pageSize);
    if skip >= |s| then []
    else
      assert Offset(page + 1, pageSize) == skip + pageSize;
      Window(s, skip, pageSize) + PagesFrom(s, pageSize, page + 1)
  }

  /** Reading the pages from `page` onward yields every record from that
      page's offset on, each once and in order. */
  lemma {:induction false} PagesFromIsSuffix<T>(s: seq<T>, pageSize: int, page: int)
    requires pageSize >= 1 && page >= 1
    requires Offset(page, pageSize) <= |s|
    ensures PagesFrom(s, pageSize, page) == s[Offset(page, pageSize)..]
    decreases |s| - Offset(page, pageSize)
  {
    var skip := Offset(page, pageSize);
    if skip < |s| {
      var next := Offset(page + 1, pageSize);
      assert next == skip + pageSize;
      if next <= |s| {
        PagesFromIsSuffix(s, pageSize, page + 1);
        assert s[skip..] == s[skip..next] + s[next..];
      } else {
        assert PagesFrom(s, pageSize, page + 1) == [];
      }
    }
  }

  /** Pagination neither loses nor repeats a record: pages 1, 2, ...
      together are the whole ordered table. */
  lemma PagesReassemble<T>(s: seq<T>, pageSize: int)
    requires pageSize >= 1
    ensures PagesFrom(s, pageSize, 1) == s
  {
    PagesFromIsSuffix(s, pageSize, 1);
  }
}
