/** Deletion-resilient hypermedia pagination: a page starts at a key that must be present and
    runs through the keys in ascending order, so rows deleted between two requests never make
    a client skip a row. */
module HypermediaDelPagination {
  import opened Wrappers
  import opened Keys
  import opened PositionIndex

  const INDEX_MESSAGE := "Index must be a non-negative integer"
  const PAGE_SIZE_MESSAGE := "Page size must be a positive integer"

  /** `sorted(data.keys())`: every key of the dict, ascending. */
  function SortedKeys<T>(d: Dict<T>): (keys: seq<int>)
    requires d.Valid()
    ensures Increasing(keys)
    ensures forall k :: k in keys <==> k in d.rows
  {
    SortedIncreasing(d.order);
    Sorted(d.order)
  }

  /** The keys of the page: the first `pageSize` keys at least `index`, ascending. */
  function PageKeys<T>(d: Dict<T>, index: int, pageSize: int): (keys: seq<int>)
    requires d.Valid()
    ensures Increasing(keys)
    ensures forall k :: k in keys ==> k in d.rows && index <= k
  {
    var sortedIndexes := SortedKeys(d);
    AtLeastIncreasing(sortedIndexes, index);
    PrefixIncreasing(AtLeast(sortedIndexes, index), pageSize);
    Prefix(AtLeast(sortedIndexes, index), pageSize)
  }

  /** `next_index` as the scan leaves it: one past the last key kept, None if none was kept. */
  function NextAfter(keys: seq<int>): (next: Option<int>)
    ensures next.Some? <==> keys != []
  {
    if keys == [] then None else Some(keys[|keys| - 1] + 1)
  }

  /** What `get_hyper_index` returns for the dict `d`: `index` must be non-negative and
      `pageSize` positive; a missing `index` gives an empty page; otherwise the page holds the
      rows of the first `pageSize` keys from `index` on, ascending, and `next_index` follows
      the last of them. */
  function HyperIndexOf<T>(d: Dict<T>, index: int, pageSize: int): (r: Result<HyperPage<T>>)
    requires d.Valid()
    ensures r.Success? ==>
      && 0 <= index && 0 < pageSize
      && r.value.index == index
      && r.value.pageSize == |r.value.data| <= pageSize
      && (r.value.data == [] <==> r.value.nextIndex == None)
  {
    if index < 0 then Failure(AssertionError(INDEX_MESSAGE))
    else if pageSize <= 0 then Failure(AssertionError(PAGE_SIZE_MESSAGE))
    else if index !in SortedKeys(d) then Success(HyperPage(index, None, 0, []))
    else
      var keys := PageKeys(d, index, pageSize);
      Success(HyperPage(index, NextAfter(keys), |keys|, RowsAt(d.rows, keys)))
  }

  /** `get_hyper_index` over the dict `d`: check both arguments, then page from `index`. */
  method HyperIndex<T>(d: Dict<T>, index: int, pageSize: int) returns (r: Result<HyperPage<T>>)
    requires d.Valid()
    ensures r == HyperIndexOf(d, index, pageSize)
  {
    if index < 0 {
      return Failure(AssertionError(INDEX_MESSAGE));
    }
    if pageSize <= 0 {
      return Failure(AssertionError(PAGE_SIZE_MESSAGE));
    }
    r := PageFrom(d, index, pageSize);
  }

  /** `get_hyper_index` once its arguments are checked: sort the keys, answer an empty page for
      a missing `index`, else scan. */
  method PageFrom<T>(d: Dict<T>, index: int, pageSize: int) returns (r: Result<HyperPage<T>>)
    requires d.Valid() && 0 <= index && 0 < pageSize
    ensures r == HyperIndexOf(d, index, pageSize)
  {
    var sortedIndexes := SortedKeys(d);
    if index !in sortedIndexes {
      return Success(HyperPage(index, None, 0, []));
    }
    var pageData, nextIndex := Scan(d, sortedIndexes, index, pageSize);
    r := Success(HyperPage(index, nextIndex, |pageData|, pageData));
  }

  /** The keys a scan of the first `j` sorted keys has kept. */
  ghost function Kept(s: seq<int>, j: int, index: int, pageSize: int): (kept: seq<int>)
    requires 0 <= j <= |s|
    ensures forall k :: k in kept ==> k in s
  {
    SliceMembers(s, j);
    Prefix(AtLeast(s[..j], index), pageSize)
  }

  /** Each member of a prefix of `s` is a member of `s`. */
  lemma SliceMembers(s: seq<int>, j: int)
    requires 0 <= j <= |s|
    ensures forall k :: k in s[..j] ==> k in s
  {
    forall k | k in s[..j] ensures k in s {
      var t :| 0 <= t < j && s[..j][t] == k;
      assert s[t] == k;
    }
  }

  /** Visiting key j before the page is full keeps it exactly when it is at least `index`. */
  lemma KeptStep(s: seq<int>, j: int, index: int, pageSize: int)
    requires 0 <= j < |s| && 0 < pageSize
    requires |Kept(s, j, index, pageSize)| < pageSize
    ensures index <= s[j] ==> Kept(s, j + 1, index, pageSize) == Kept(s, j, index, pageSize) + [s[j]]
    ensures s[j] < index ==> Kept(s, j + 1, index, pageSize) == Kept(s, j, index, pageSize)
  {
    AtLeastStep(s, j, index);
    assert AtLeast(s[..j], index) + [] == AtLeast(s[..j], index);
  }

  /** Keeping one more key moves `next_index` just past it. */
  lemma NextAfterAppend(kept: seq<int>, i: int)
    ensures NextAfter(kept + [i]) == Some(i + 1)
  {
    assert (kept + [i])[|kept|] == i;
  }

  /** Once `pageSize` keys are kept, the rest of the scan keeps nothing more. */
  lemma KeptFull(s: seq<int>, j: int, index: int, pageSize: int)
    requires 0 <= j <= |s| && 0 < pageSize
    requires |Kept(s, j, index, pageSize)| == pageSize
    ensures Kept(s, j, index, pageSize) == Prefix(AtLeast(s, index), pageSize)
  {
    AtLeastOfPrefix(s, j, index);
  }

  /** The loop of `get_hyper_index`: walk the sorted keys, keeping the rows of keys at least
      `index` and moving `next_index` past each kept key, until one key after the page fills. */
  method Scan<T>(d: Dict<T>, sortedIndexes: seq<int>, index: int, pageSize: int)
      returns (pageData: seq<T>, nextIndex: Option<int>)
    requires d.Valid() && sortedIndexes == SortedKeys(d) && 0 < pageSize
    ensures pageData == RowsAt(d.rows, PageKeys(d, index, pageSize))
    ensures nextIndex == NextAfter(PageKeys(d, index, pageSize))
  {
    pageData := [];
    nextIndex := None;
    var dataCount := 0;
    ghost var kept: seq<int> := [];
    for j := 0 to |sortedIndexes|
      invariant kept == Kept(sortedIndexes, j, index, pageSize)
      invariant dataCount == |kept| <= pageSize
      invariant pageData == RowsAt(d.rows, kept)
      invariant nextIndex == NextAfter(kept)
    {
      var i := sortedIndexes[j];
      if i >= index && dataCount < pageSize {
        KeptStep(sortedIndexes, j, index, pageSize);
        assert i in d.rows by { assert i in sortedIndexes; }
        RowsAtAppend(d.rows, kept, i);
        pageData := pageData + [d.rows[i]];
        dataCount := dataCount + 1;
        nextIndex := Some(i + 1);
        NextAfterAppend(kept, i);
        kept := kept + [i];
      } else if dataCount >= pageSize {
        KeptFull(sortedIndexes, j, index, pageSize);
        return;
      } else {
        KeptStep(sortedIndexes, j, index, pageSize);
      }
    }
    assert sortedIndexes[..|sortedIndexes|] == sortedIndexes;
  }

  /** The server: the rows it serves, as `dataset()` returns them, and the cache that
      `indexed_dataset` fills on first use. */
  class Server<T> {
    const dataset: seq<T>
    var indexedCache: Option<Dict<T>>

    /** The cache is empty or holds a well-formed dict: the index of the dataset, or that
        index as clients have changed it through the reference `indexed_dataset` hands out. */
    ghost predicate Valid()
      reads this
    {
      indexedCache.Some? ==> indexedCache.value.Valid()
    }

    /** The dict `indexed_dataset` answers now: the cached one, or the index of the dataset
        when nothing is cached yet. */
    ghost function Index(): (d: Dict<T>)
      requires Valid()
      reads this
      ensures d.Valid()
    {
      if indexedCache.Some? then indexedCache.value else Indexed(dataset)
    }

    /** A server over `dataset` starts with nothing cached. */
    constructor(dataset: seq<T>)
      ensures this.dataset == dataset && indexedCache == None && Valid()
    {
      this.dataset := dataset;
      indexedCache := None;
    }

    /** `indexed_dataset`: build the index on first use, answer from the cache after that. */
    method IndexedDataset() returns (d: Dict<T>)
      requires Valid()
      modifies this
      ensures Valid() && d == old(Index()) && indexedCache == Some(d)
    {
      if indexedCache.None? {
        indexedCache := Some(Indexed(dataset));
      }
      d := indexedCache.value;
    }

    /** A client's `del server.indexed_dataset()[k]`: the dict is handed out by reference, so
        the deletion changes the cached dict itself; a missing key raises `KeyError`. */
    method DeleteIndexed(k: int) returns (r: Result<()>)
      requires Valid()
      modifies this
      ensures Valid()
      ensures k in old(Index()).rows ==> r == Success(()) && indexedCache == Some(Remove(old(Index()), k))
      ensures k !in old(Index()).rows ==> r == Failure(KeyError) && indexedCache == Some(old(Index()))
    {
      var d := IndexedDataset();
      if k !in d.rows {
        return Failure(KeyError);
      }
      indexedCache := Some(Remove(d, k));
      r := Success(());
    }

    /** `get_hyper_index`: both arguments are checked before the index is built, so a rejected
        request leaves the cache as it was. */
    method GetHyperIndex(index: int, pageSize: int) returns (r: Result<HyperPage<T>>)
      requires Valid()
      modifies this
      ensures Valid()
      ensures indexedCache == if index < 0 || pageSize <= 0 then old(indexedCache) else Some(old(Index()))
      ensures r == HyperIndexOf(old(Index()), index, pageSize)
    {
      if index < 0 {
        return Failure(AssertionError(INDEX_MESSAGE));
      }
      if pageSize <= 0 {
        return Failure(AssertionError(PAGE_SIZE_MESSAGE));
      }
      var d := IndexedDataset();
      r := PageFrom(d, index, pageSize);
    }
  }

  /** The request fails exactly when `index` is negative or `pageSize` is not positive, and the
      index check comes first. */
  lemma HyperIndexFails<T>(d: Dict<T>, index: int, pageSize: int)
    requires d.Valid()
    ensures index < 0 ==> HyperIndexOf(d, index, pageSize) == Failure(AssertionError(INDEX_MESSAGE))
    ensures 0 <= index && pageSize <= 0 ==>
      HyperIndexOf(d, index, pageSize) == Failure(AssertionError(PAGE_SIZE_MESSAGE))
    ensures HyperIndexOf(d, index, pageSize).Failure? <==> index < 0 || pageSize <= 0
  {
  }

  /** A request for a key that is not present answers an empty page with no next index. */
  lemma HyperIndexMissing<T>(d: Dict<T>, index: int, pageSize: int)
    requires d.Valid() && 0 <= index && 0 < pageSize && index !in d.rows
    ensures HyperIndexOf(d, index, pageSize) == Success(HyperPage(index, None, 0, []))
  {
  }

  /** A request for a present key answers at most `pageSize` rows, the first being the row at
      `index`, in ascending key order; fewer than `pageSize` only when every key from `index` on
      was kept; and `next_index` always follows the last key kept. */
  lemma HyperIndexPresent<T>(d: Dict<T>, index: int, pageSize: int)
    requires d.Valid() && 0 <= index && 0 < pageSize && index in d.rows
    ensures var r := HyperIndexOf(d, index, pageSize);
      var keys := PageKeys(d, index, pageSize);
      && r.Success?
      && r.value.index == index
      && r.value.pageSize == |r.value.data| == |keys|
      && 1 <= |keys| <= pageSize
      && keys[0] == index
      && r.value.data[0] == d.rows[index]
      && (forall t :: 0 <= t < |keys| ==> r.value.data[t] == d.rows[keys[t]])
      && r.value.nextIndex == Some(keys[|keys| - 1] + 1)
      && (|keys| < pageSize ==> forall k :: k in d.rows && index <= k ==> k in keys)
  {
    var s := SortedKeys(d);
    var e := AtLeast(s, index);
    AtLeastIncreasing(s, index);
    assert index in e;
    IncreasingHead(e, index);
    var keys := PageKeys(d, index, pageSize);
    assert keys[0] == e[0];
    if |keys| < pageSize {
      assert keys == e;
    }
  }

  /** Deletion resilience: the page keeps every present key from `index` up to, but not
      including, `next_index`, and no other key. */
  lemma NoSkipping<T>(d: Dict<T>, index: int, pageSize: int)
    requires d.Valid() && 0 <= index && 0 < pageSize && index in d.rows
    ensures var keys := PageKeys(d, index, pageSize);
      && keys != []
      && HyperIndexOf(d, index, pageSize).value.nextIndex == Some(keys[|keys| - 1] + 1)
      && forall k :: k in d.rows ==> (k in keys <==> index <= k < keys[|keys| - 1] + 1)
  {
    HyperIndexPresent(d, index, pageSize);
    var e := AtLeast(SortedKeys(d), index);
    AtLeastIncreasing(SortedKeys(d), index);
    PrefixUpTo(e, pageSize);
  }

  /** On an index with no gaps, a request answers the slice of the dataset from `index`, and
      `next_index` is the position after it, even at the end of the data. */
  lemma UngappedHyperIndex<T>(dataset: seq<T>, index: int, pageSize: int)
    requires 0 <= index < |dataset| && 0 < pageSize
    ensures var stop := if index + pageSize < |dataset| then index + pageSize else |dataset|;
      var r := HyperIndexOf(Indexed(dataset), index, pageSize);
      && r.Success?
      && r.value.index == index
      && r.value.nextIndex == Some(stop)
      && r.value.pageSize == stop - index
      && r.value.data == dataset[index..stop]
  {
    var n := |dataset|;
    var stop := if index + pageSize < n then index + pageSize else n;
    var d := Indexed(dataset);
    UngappedKeys(dataset, index, pageSize);
    var keys := PageKeys(d, index, pageSize);
    assert |keys| == stop - index && keys[|keys| - 1] == stop - 1;
    assert NextAfter(keys) == Some(stop);
    RowsAtIndexed(dataset, index, stop);
    assert RowsAt(d.rows, keys) == dataset[index..stop];
    assert index in SortedKeys(d);
  }

  /** On an index with no gaps, the page's keys are the run of positions from `index`. */
  lemma UngappedKeys<T>(dataset: seq<T>, index: int, pageSize: int)
    requires 0 <= index < |dataset| && 0 < pageSize
    ensures PageKeys(Indexed(dataset), index, pageSize) ==
      Range(index, if index + pageSize < |dataset| then index + pageSize else |dataset|)
  {
    var d := Indexed(dataset);
    SortedUnique(d.order, d.order);
    AtLeastRange(0, |dataset|, index);
    PrefixRange(index, |dataset|, pageSize);
  }

  /** With key 5 deleted, `index=4, page_size=3` gives the rows at 4, 6 and 7 and points on to
      8, while `index=5` gives the empty page. */
  lemma DeletedKeyExample<T>(dataset: seq<T>)
    requires 8 <= |dataset|
    ensures var r := HyperIndexOf(Deleted(dataset, 5), 4, 3);
      && r.Success?
      && r.value.index == 4
      && r.value.nextIndex == Some(8)
      && r.value.pageSize == 3
      && r.value.data == [dataset[4], dataset[6], dataset[7]]
    ensures HyperIndexOf(Deleted(dataset, 5), 5, 3) == Success(HyperPage(5, None, 0, []))
  {
    var d := Deleted(dataset, 5);
    DeletedOrder(dataset, 5);
    DeletedKeys(|dataset|);
    SortedUnique(d.order, d.order);
    assert PageKeys(d, 4, 3) == [4, 6, 7];
    DeletedRow(dataset, 5, 4);
    DeletedRow(dataset, 5, 6);
    DeletedRow(dataset, 5, 7);
    RowsAtThree(d.rows, 4, 6, 7);
    HyperIndexMissing(d, 5, 3);
  }

  /** With key 5 deleted, the keys at least 4 are 4 and those from 6 on. */
  lemma DeletedFiltered(n: int)
    requires 8 <= n
    ensures AtLeast(Range(0, 5) + Range(6, n), 4) == Range(4, 5) + Range(6, n)
  {
    AtLeastAppend(Range(0, 5), Range(6, n), 4);
    AtLeastRange(0, 5, 4);
    AtLeastRange(6, n, 4);
  }

  /** With key 5 deleted, the first three keys at least 4 are 4, 6 and 7. */
  lemma DeletedKeys(n: int)
    requires 8 <= n
    ensures Prefix(AtLeast(Range(0, 5) + Range(6, n), 4), 3) == [4, 6, 7]
  {
    DeletedFiltered(n);
    var e := Range(4, 5) + Range(6, n);
    assert e[0] == 4 && e[1] == 6 && e[2] == 7;
    var p := Prefix(e, 3);
    assert p[0] == 4 && p[1] == 6 && p[2] == 7;
  }

  /** A client deletes key 5 through the dict the server hands out; the server then answers
      `index=4, page_size=3` with the rows at 4, 6 and 7 and `next_index` 8, and the follow-up
      request for `index=5` with the empty page. */
  method DeletionSeen<T>(dataset: seq<T>) returns (first: Result<HyperPage<T>>, second: Result<HyperPage<T>>)
    requires 8 <= |dataset|
    ensures first.Success?
    ensures first.value.nextIndex == Some(8) && first.value.data == [dataset[4], dataset[6], dataset[7]]
    ensures second == Success(HyperPage(5, None, 0, []))
  {
    var server := new Server(dataset);
    var deleted := server.DeleteIndexed(5);
    first := server.GetHyperIndex(4, 3);
    second := server.GetHyperIndex(5, 3);
    DeletedKeyExample(dataset);
  }
}
