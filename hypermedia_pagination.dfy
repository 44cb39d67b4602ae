/** Hypermedia pagination, first version: a page starts at a key of the position index and
    runs through the keys in the dict's iteration order. */
module HypermediaPagination {
  import opened Wrappers
  import opened Keys
  import opened PositionIndex

  const INDEX_MESSAGE := "Index out of bounds"

  /** The keys a request for `index` visits, in iteration order: those at least `index`. */
  function Eligible<T>(d: Dict<T>, index: int): seq<int>
  {
    AtLeast(d.order, index)
  }

  /** Every key a scan keeps is present in the dict. */
  lemma ScannedKeysPresent<T>(d: Dict<T>, j: int, index: int)
    requires d.Valid() && 0 <= j <= |d.order|
    ensures forall k :: k in AtLeast(d.order[..j], index) ==> k in d.rows
  {
    forall k | k in AtLeast(d.order[..j], index) ensures k in d.rows {
      assert k in d.order[..j];
      var t :| 0 <= t < j && d.order[..j][t] == k;
      assert d.order[t] == k;
      var key := d.order[t];
      assert key in d.order;
    }
  }

  /** The keys of the page: the first `pageSize` eligible keys (none when `pageSize` <= 0). */
  function PageKeys<T>(d: Dict<T>, index: int, pageSize: int): (keys: seq<int>)
    requires d.Valid()
    ensures forall k :: k in keys ==> k in d.rows && index <= k
  {
    ScannedKeysPresent(d, |d.order|, index);
    assert d.order[..|d.order|] == d.order;
    Prefix(Eligible(d, index), pageSize)
  }

  /** `next_index`: one past the last key of the page, set only when the page filled up. */
  function NextIndexOf<T>(d: Dict<T>, index: int, pageSize: int): (next: Option<int>)
    requires d.Valid()
    ensures next.Some? ==> 0 < pageSize && index < next.value
  {
    var keys := PageKeys(d, index, pageSize);
    assert 0 < pageSize && |keys| == pageSize ==> keys[pageSize - 1] in keys;
    if 0 < pageSize && |keys| == pageSize then Some(keys[pageSize - 1] + 1) else None
  }

  /** The keys a scan of the first `j` entries has kept, before the page fills. */
  ghost function Scanned<T>(d: Dict<T>, j: int, index: int, pageSize: int): (kept: seq<int>)
    requires d.Valid() && 0 <= j <= |d.order|
    ensures forall k :: k in kept ==> k in d.rows
  {
    ScannedKeysPresent(d, j, index);
    if 0 < pageSize then AtLeast(d.order[..j], index) else []
  }

  /** Visiting entry j keeps its key exactly when it is eligible and the page is not full. */
  lemma ScanStep<T>(d: Dict<T>, j: int, index: int, pageSize: int)
    requires d.Valid() && 0 <= j < |d.order|
    requires 0 < pageSize ==> |Scanned(d, j, index, pageSize)| < pageSize
    ensures d.order[j] in d.rows
    ensures var kept := Scanned(d, j, index, pageSize);
      Scanned(d, j + 1, index, pageSize) ==
        if index <= d.order[j] && |kept| < pageSize then kept + [d.order[j]] else kept
    ensures var kept := Scanned(d, j, index, pageSize);
      index <= d.order[j] && |kept| < pageSize ==>
        RowsAt(d.rows, kept + [d.order[j]]) == RowsAt(d.rows, kept) + [d.rows[d.order[j]]]
  {
    ListsKeys(d);
    AtLeastStep(d.order, j, index);
  }

  /** When the scan has kept `pageSize` keys, they are the page's keys, and `next_index`
      follows the last of them. */
  lemma ScanFills<T>(d: Dict<T>, j: int, index: int, pageSize: int)
    requires d.Valid() && 0 <= j <= |d.order| && 0 < pageSize
    requires |Scanned(d, j, index, pageSize)| == pageSize
    ensures Scanned(d, j, index, pageSize) == PageKeys(d, index, pageSize)
    ensures NextIndexOf(d, index, pageSize) == Some(Scanned(d, j, index, pageSize)[pageSize - 1] + 1)
  {
    AtLeastOfPrefix(d.order, j, index);
  }

  /** When the scan visits every entry without filling the page, it has kept all the page's
      keys and `next_index` stays None. */
  lemma ScanEnds<T>(d: Dict<T>, index: int, pageSize: int)
    requires d.Valid()
    requires 0 < pageSize ==> |Scanned(d, |d.order|, index, pageSize)| < pageSize
    ensures Scanned(d, |d.order|, index, pageSize) == PageKeys(d, index, pageSize)
    ensures NextIndexOf(d, index, pageSize) == None
  {
    assert d.order[..|d.order|] == d.order;
  }

  /** What `get_hyper_index` returns for the dict `d`: `index` must lie between 0 and the
      greatest key; the page holds the first `pageSize` eligible rows in iteration order, and
      `next_index` follows the last of them only when the page filled up. */
  function HyperIndexOf<T>(d: Dict<T>, index: int, pageSize: int): (r: Result<HyperPage<T>>)
    requires d.Valid()
    ensures r.Success? ==>
      && 0 <= index
      && r.value.index == index
      && r.value.pageSize == |r.value.data|
      && (0 < pageSize ==> r.value.pageSize <= pageSize)
      && (pageSize <= 0 ==> r.value.data == [])
  {
    if index < 0 then Failure(AssertionError(INDEX_MESSAGE))
    else if d.order == [] then Failure(ValueError)
    else if Max(d.order) < index then Failure(AssertionError(INDEX_MESSAGE))
    else
      var keys := PageKeys(d, index, pageSize);
      Success(HyperPage(index, NextIndexOf(d, index, pageSize), |keys|, RowsAt(d.rows, keys)))
  }

  /** `get_hyper_index` over the dict `d` that `indexed_dataset` returned: check that
      `index` lies between 0 and the greatest key, then scan. */
  method HyperIndex<T>(d: Dict<T>, index: int, pageSize: int) returns (r: Result<HyperPage<T>>)
    requires d.Valid()
    ensures r == HyperIndexOf(d, index, pageSize)
  {
    if index < 0 {
      return Failure(AssertionError(INDEX_MESSAGE));
    }
    if d.order == [] {
      return Failure(ValueError);
    }
    if Max(d.order) < index {
      return Failure(AssertionError(INDEX_MESSAGE));
    }
    var pageData, nextIndex := Scan(d, index, pageSize);
    r := Success(HyperPage(index, nextIndex, |pageData|, pageData));
  }

  /** The loop of `get_hyper_index`: walk the entries in iteration order, keeping the rows
      whose key is at least `index` until `pageSize` of them are kept, and set `next_index`
      past the key that fills the page. */
  method Scan<T>(d: Dict<T>, index: int, pageSize: int) returns (pageData: seq<T>, nextIndex: Option<int>)
    requires d.Valid()
    ensures pageData == RowsAt(d.rows, PageKeys(d, index, pageSize))
    ensures nextIndex == NextIndexOf(d, index, pageSize)
  {
    pageData := [];
    var dataCount := 0;
    nextIndex := None;
    ghost var kept: seq<int> := [];
    for j := 0 to |d.order|
      invariant kept == Scanned(d, j, index, pageSize)
      invariant 0 < pageSize ==> |kept| < pageSize
      invariant dataCount == |kept| && pageData == RowsAt(d.rows, kept)
      invariant nextIndex == None
    {
      var i := d.order[j];
      ScanStep(d, j, index, pageSize);
      if i >= index && dataCount < pageSize {
        pageData := pageData + [d.rows[i]];
        dataCount := dataCount + 1;
        kept := kept + [i];
        if dataCount == pageSize {
          nextIndex := Some(i + 1);
          ScanFills(d, j + 1, index, pageSize);
          assert kept[pageSize - 1] == i;
          break;
        }
      }
    }
    if nextIndex == None {
      ScanEnds(d, index, pageSize);
    }
  }

  /** The server: the rows it serves, as `dataset()` returns them, and the cache that
      `indexed_dataset` fills on first use. */
  class Server<T> {
    const dataset: seq<T>
    var indexedCache: Option<Dict<T>>

    /** The cache is empty or holds a well-formed dict: the index of the dataset, or that
        index as clients have changed it through the reference `indexed_dataset` hands out. */
    ghost predicate Valid()
      reads this
    {
      indexedCache.Some? ==> indexedCache.value.Valid()
    }

    /** The dict `indexed_dataset` answers now: the cached one, or the index of the dataset
        when nothing is cached yet. */
    ghost function Index(): (d: Dict<T>)
      requires Valid()
      reads this
      ensures d.Valid()
    {
      if indexedCache.Some? then indexedCache.value else Indexed(dataset)
    }

    /** A server over `dataset` starts with nothing cached. */
    constructor(dataset: seq<T>)
      ensures this.dataset == dataset && indexedCache == None && Valid()
    {
      this.dataset := dataset;
      indexedCache := None;
    }

    /** `indexed_dataset`: build the index on first use, answer from the cache after that. */
    method IndexedDataset() returns (d: Dict<T>)
      requires Valid()
      modifies this
      ensures Valid() && d == old(Index()) && indexedCache == Some(d)
    {
      if indexedCache.None? {
        indexedCache := Some(Indexed(dataset));
      }
      d := indexedCache.value;
    }

    /** A client's `del server.indexed_dataset()[k]`: the dict is handed out by reference, so
        the deletion changes the cached dict itself; a missing key raises `KeyError`. */
    method DeleteIndexed(k: int) returns (r: Result<()>)
      requires Valid()
      modifies this
      ensures Valid()
      ensures k in old(Index()).rows ==> r == Success(()) && indexedCache == Some(Remove(old(Index()), k))
      ensures k !in old(Index()).rows ==> r == Failure(KeyError) && indexedCache == Some(old(Index()))
    {
      var d := IndexedDataset();
      if k !in d.rows {
        return Failure(KeyError);
      }
      indexedCache := Some(Remove(d, k));
      r := Success(());
    }

    /** `get_hyper_index`: the index is built (or read from the cache) before any check, so even
        a failing request leaves it cached. */
    method GetHyperIndex(index: int, pageSize: int) returns (r: Result<HyperPage<T>>)
      requires Valid()
      modifies this
      ensures Valid() && indexedCache == Some(old(Index()))
      ensures r == HyperIndexOf(old(Index()), index, pageSize)
    {
      var d := IndexedDataset();
      r := HyperIndex(d, index, pageSize);
    }
  }

  /** The request fails exactly when `index` is negative or no key is at least `index`; the
      bounds assertion fails, except that `max` itself raises on an empty dict. */
  lemma HyperIndexFails<T>(d: Dict<T>, index: int, pageSize: int)
    requires d.Valid()
    ensures index < 0 ==> HyperIndexOf(d, index, pageSize) == Failure(AssertionError(INDEX_MESSAGE))
    ensures 0 <= index && d.rows == map[] ==> HyperIndexOf(d, index, pageSize) == Failure(ValueError)
    ensures 0 <= index && d.rows != map[] ==>
      (HyperIndexOf(d, index, pageSize).Failure? <==> forall k :: k in d.rows ==> k < index)
  {
    if d.order == [] {
      assert forall k :: k !in d.rows;
    } else {
      var m := Max(d.order);
      assert m in d.rows;
    }
  }

  /** When some key is at least `index` >= 0, the request succeeds with the page's keys. */
  lemma HyperIndexOk<T>(d: Dict<T>, index: int, pageSize: int)
    requires d.Valid() && 0 <= index
    requires exists k :: k in d.order && index <= k
    ensures var keys := PageKeys(d, index, pageSize);
      HyperIndexOf(d, index, pageSize) ==
        Success(HyperPage(index, NextIndexOf(d, index, pageSize), |keys|, RowsAt(d.rows, keys)))
  {
    var k :| k in d.order && index <= k;
    assert k <= Max(d.order);
  }

  /** A successful page echoes `index`, reports as its size the number of rows it holds, never
      more than requested; its rows are those of eligible keys, in iteration order; and
      `next_index` is set, to one past the last key kept, exactly when the page is full. */
  lemma HyperIndexPage<T>(d: Dict<T>, index: int, pageSize: int)
    requires d.Valid()
    requires HyperIndexOf(d, index, pageSize).Success?
    ensures var p := HyperIndexOf(d, index, pageSize).value;
      var keys := PageKeys(d, index, pageSize);
      && p.index == index
      && p.pageSize == |p.data| == |keys|
      && (0 < pageSize ==> p.pageSize <= pageSize)
      && (pageSize <= 0 ==> p.data == [])
      && (forall k :: k in keys ==> k in d.rows && index <= k)
      && (forall t :: 0 <= t < |keys| ==> p.data[t] == d.rows[keys[t]])
      && (p.nextIndex.Some? <==> 0 < pageSize && p.pageSize == pageSize)
      && (p.nextIndex.Some? ==> p.nextIndex.value == keys[|keys| - 1] + 1)
  {
  }

  /** On an index built from `dataset`, with no gaps, a page is a plain slice of the dataset,
      and `next_index` is the position after it unless the page ran past the end. */
  lemma UngappedHyperIndex<T>(dataset: seq<T>, index: int, pageSize: int)
    requires 0 <= index < |dataset|
    ensures var stop := if pageSize <= 0 then index
                        else if index + pageSize < |dataset| then index + pageSize else |dataset|;
      var r := HyperIndexOf(Indexed(dataset), index, pageSize);
      && r.Success?
      && r.value.index == index
      && r.value.nextIndex == (if 0 < pageSize && index + pageSize <= |dataset| then Some(index + pageSize) else None)
      && r.value.pageSize == stop - index
      && r.value.data == dataset[index..stop]
  {
    var d := Indexed(dataset);
    var n := |dataset|;
    var stop := if pageSize <= 0 then index else if index + pageSize < n then index + pageSize else n;
    UngappedKeys(dataset, index, pageSize);
    UngappedNext(dataset, index, pageSize);
    var keys := PageKeys(d, index, pageSize);
    RowsAtIndexed(dataset, index, stop);
    assert RowsAt(d.rows, keys) == dataset[index..stop];
    assert n - 1 in d.order;
    HyperIndexOk(d, index, pageSize);
  }

  /** On an index with no gaps, `next_index` is the position after a full page. */
  lemma UngappedNext<T>(dataset: seq<T>, index: int, pageSize: int)
    requires 0 <= index < |dataset|
    ensures NextIndexOf(Indexed(dataset), index, pageSize) ==
      if 0 < pageSize && index + pageSize <= |dataset| then Some(index + pageSize) else None
  {
    var d := Indexed(dataset);
    UngappedKeys(dataset, index, pageSize);
    var keys := PageKeys(d, index, pageSize);
    if 0 < pageSize && index + pageSize <= |dataset| {
      assert |keys| == pageSize && keys[pageSize - 1] == index + pageSize - 1;
      assert NextIndexOf(d, index, pageSize) == Some(index + pageSize);
    } else {
      assert |keys| != pageSize || pageSize <= 0;
      assert NextIndexOf(d, index, pageSize) == None;
    }
  }

  /** On an index with no gaps, the page's keys are the run of positions from `index`. */
  lemma UngappedKeys<T>(dataset: seq<T>, index: int, pageSize: int)
    requires 0 <= index < |dataset|
    ensures PageKeys(Indexed(dataset), index, pageSize) ==
      Range(index, if pageSize <= 0 then index else if index + pageSize < |dataset| then index + pageSize else |dataset|)
  {
    AtLeastRange(0, |dataset|, index);
    PrefixRange(index, |dataset|, pageSize);
  }

  /** A request for a key that is missing is not rejected: the page starts at the next key
      present. With key 5 deleted, `index=5, page_size=3` gives the rows at 6, 7 and 8. */
  lemma GapIsSkipped<T>(dataset: seq<T>)
    requires 9 <= |dataset|
    ensures var r := HyperIndexOf(Deleted(dataset, 5), 5, 3);
      && r.Success?
      && r.value.index == 5
      && r.value.nextIndex == Some(9)
      && r.value.pageSize == 3
      && r.value.data == [dataset[6], dataset[7], dataset[8]]
  {
    var n := |dataset|;
    var d := Deleted(dataset, 5);
    DeletedOrder(dataset, 5);
    GapKeys(n);
    assert PageKeys(d, 5, 3) == [6, 7, 8];
    assert NextIndexOf(d, 5, 3) == Some(9);
    DeletedRow(dataset, 5, 6);
    DeletedRow(dataset, 5, 7);
    DeletedRow(dataset, 5, 8);
    RowsAtThree(d.rows, 6, 7, 8);
    assert n - 1 in d.order;
    HyperIndexOk(d, 5, 3);
  }

  /** Past a deleted key 5, the keys at least 5 are those from 6 on. */
  lemma GapFiltered(n: int)
    requires 9 <= n
    ensures AtLeast(Range(0, 5) + Range(6, n), 5) == Range(6, n)
  {
    AtLeastAppend(Range(0, 5), Range(6, n), 5);
    AtLeastRange(0, 5, 5);
    AtLeastRange(6, n, 5);
    assert |Range(5, 5)| == 0;
  }

  /** Past a deleted key 5, the first three keys at least 5 are 6, 7 and 8. */
  lemma GapKeys(n: int)
    requires 9 <= n
    ensures Prefix(AtLeast(Range(0, 5) + Range(6, n), 5), 3) == [6, 7, 8]
  {
    GapFiltered(n);
    PrefixRange(6, n, 3);
    assert Range(6, 9) == [6, 7, 8];
  }

  /** A client deletes key 5 through the dict the server hands out; the server's next request
      for `index=5, page_size=3` sees the gap and answers the rows at 6, 7 and 8. */
  method DeletionSeen<T>(dataset: seq<T>) returns (r: Result<HyperPage<T>>)
    requires 9 <= |dataset|
    ensures r.Success?
    ensures r.value.nextIndex == Some(9) && r.value.data == [dataset[6], dataset[7], dataset[8]]
  {
    var server := new Server(dataset);
    var deleted := server.DeleteIndexed(5);
    r := server.GetHyperIndex(5, 3);
    GapIsSkipped(dataset);
  }
}
