/** Offset pagination: a 1-indexed page number and a page size select a window of the
    dataset's rows. */
module SimplePagination {
  import opened Wrappers

  const PAGE_MESSAGE := "Page must be a positive integer"
  const PAGE_SIZE_MESSAGE := "Page size must be a positive integer"

  /** `index_range`: the half-open window [start, end) of rows that page `page` covers. */
  function IndexRange(page: int, pageSize: int): (r: (int, int))
    ensures r.1 - r.0 == pageSize
    ensures 1 <= page && 0 <= pageSize ==> 0 <= r.0
  {
    var start := (page - 1) * pageSize;
    (start, start + pageSize)
  }

  /** Consecutive pages of one size tile the positions: each window ends where the next starts. */
  lemma IndexRangeTiles(page: int, pageSize: int)
    ensures IndexRange(page, pageSize).1 == IndexRange(page + 1, pageSize).0
  {
  }

  lemma MulLeft(a: int, b: int, c: int)
    requires a <= b && 0 <= c
    ensures a * c <= b * c
  {
  }

  lemma MulSucc(a: int, b: int)
    ensures (a + 1) * b == a * b + b
  {
  }

  /** Position `i` lies in the window of page `page` exactly when `page` is the page that
      `i` falls on when the rows are cut into blocks of `pageSize`. */
  lemma WindowMembership(page: int, pageSize: int, i: int)
    requires 1 <= page && 1 <= pageSize && 0 <= i
    ensures IndexRange(page, pageSize).0 <= i < IndexRange(page, pageSize).1 <==> i / pageSize == page - 1
  {
    var q, r := i / pageSize, i % pageSize;
    assert i == q * pageSize + r && 0 <= r < pageSize;
    var start := (page - 1) * pageSize;
    assert IndexRange(page, pageSize) == (start, start + pageSize);
    MulSucc(q, pageSize);
    MulSucc(page - 1, pageSize);
    if q < page - 1 {
      MulLeft(q + 1, page - 1, pageSize);
    } else if q > page - 1 {
      MulLeft(page, q, pageSize);
    }
  }

  /** `Server.get_page`: both arguments must be positive; the rows of the page's window
      that the dataset has, or none when the window starts at or past its end. */
  function GetPage<T>(data: seq<T>, page: int, pageSize: int): (r: Result<seq<T>>)
    ensures page <= 0 ==> r == Failure(AssertionError(PAGE_MESSAGE))
    ensures 0 < page && pageSize <= 0 ==> r == Failure(AssertionError(PAGE_SIZE_MESSAGE))
    ensures 0 < page && 0 < pageSize ==>
      var start := IndexRange(page, pageSize).0;
      && r.Success?
      && |r.value| == (if |data| <= start then 0 else if pageSize < |data| - start then pageSize else |data| - start)
      && forall j :: 0 <= j < |r.value| ==> r.value[j] == data[start + j]
  {
    if page <= 0 then Failure(AssertionError(PAGE_MESSAGE))
    else if pageSize <= 0 then Failure(AssertionError(PAGE_SIZE_MESSAGE))
    else
      var (start, end) := IndexRange(page, pageSize);
      Success(if start < |data| then data[start .. if end < |data| then end else |data|] else [])
  }

  /** The rows of pages 1 to n of size `pageSize`, one page after the other. */
  function FirstPages<T>(data: seq<T>, pageSize: int, n: nat): seq<T>
    requires 0 < pageSize
  {
    if n == 0 then [] else FirstPages(data, pageSize, n - 1) + GetPage(data, n, pageSize).value
  }

  /** Pages 1 to n together hold the first n * pageSize rows, in order, each once. */
  lemma {:induction false} FirstPagesPrefix<T>(data: seq<T>, pageSize: int, n: nat)
    requires 0 < pageSize
    ensures FirstPages(data, pageSize, n) == data[..if n * pageSize < |data| then n * pageSize else |data|]
  {
    if n > 0 {
      FirstPagesPrefix(data, pageSize, n - 1);
      PageExtends(data, pageSize, n);
    }
  }

  /** Page n continues the rows of the pages before it. */
  lemma PageExtends<T>(data: seq<T>, pageSize: int, n: int)
    requires 0 < pageSize && 0 < n
    ensures var a := (n - 1) * pageSize;
      var b := n * pageSize;
      data[..if a < |data| then a else |data|] + GetPage(data, n, pageSize).value ==
        data[..if b < |data| then b else |data|]
  {
    var a := (n - 1) * pageSize;
    var b := n * pageSize;
    MulSucc(n - 1, pageSize);
    MulLeft(0, n - 1, pageSize);
    assert IndexRange(n, pageSize).0 == a && b == a + pageSize && 0 <= a;
    if a < |data| {
      var stop := if b < |data| then b else |data|;
      assert data[..a] + data[a..stop] == data[..stop];
    }
  }

  /** For any page size, the pages up to the last non-empty one reproduce the dataset in
      order with no row repeated, and the page after it is empty. */
  lemma PagesCoverData<T>(data: seq<T>, pageSize: int)
    requires 0 < pageSize
    ensures var last := (|data| + pageSize - 1) / pageSize;
      && FirstPages(data, pageSize, last) == data
      && GetPage(data, last + 1, pageSize) == Success([])
      && (0 < last ==> GetPage(data, last, pageSize).value != [])
  {
    var last := (|data| + pageSize - 1) / pageSize;
    var rem := (|data| + pageSize - 1) % pageSize;
    assert last * pageSize + rem == |data| + pageSize - 1;
    assert |data| <= last * pageSize;
    assert (last - 1) * pageSize == last * pageSize - pageSize;
    FirstPagesPrefix(data, pageSize, last);
    assert IndexRange(last + 1, pageSize).0 == last * pageSize;
  }
}
