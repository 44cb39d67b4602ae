/** The position index: the dict from stable integer keys to rows that both hypermedia
    paginators read, and the shape of the page they return. */
module PositionIndex {
  import opened Wrappers
  import opened Keys

  /** A Python dict from integer keys to rows. `order` is the order in which iteration
      visits the keys (insertion order); `rows` holds the entries. */
  datatype Dict<T> = Dict(order: seq<int>, rows: map<int, T>)
  {
    /** Every key is listed exactly once, and only keys are listed. */
    ghost predicate Valid()
    {
      && Distinct(order)
      && (forall k :: k in rows <==> k in order)
    }
  }

  /** Every key the iteration order lists is present. */
  lemma ListsKeys<T>(d: Dict<T>)
    requires d.Valid()
    ensures forall j :: 0 <= j < |d.order| ==> d.order[j] in d.rows
  {
    forall j | 0 <= j < |d.order| ensures d.order[j] in d.rows {
      assert d.order[j] in d.order;
    }
  }

  /** `{i: dataset[i] for i in range(len(dataset))}`: each row keyed by its position. */
  function Indexed<T>(dataset: seq<T>): (d: Dict<T>)
    ensures d.Valid()
    ensures forall k :: k in d.rows <==> 0 <= k < |dataset|
    ensures forall i :: 0 <= i < |dataset| ==> d.rows[i] == dataset[i]
    ensures Increasing(d.order)
  {
    Dict(Range(0, |dataset|), map i | 0 <= i < |dataset| :: dataset[i])
  }

  /** The dict read back in iteration order: its rows, one per key, in the order iteration
      visits the keys. */
  function Values<T>(d: Dict<T>): (r: seq<T>)
    requires d.Valid()
    ensures |r| == |d.order|
  {
    RowsAt(d.rows, d.order)
  }

  /** Reading the index back in iteration order gives the dataset it was built from. */
  lemma IndexedValues<T>(dataset: seq<T>)
    ensures Values(Indexed(dataset)) == dataset
  {
  }

  lemma PresentAt<T>(rows: map<int, T>, keys: seq<int>)
    requires forall k :: k in keys ==> k in rows
    ensures forall j :: 0 <= j < |keys| ==> keys[j] in rows
  {
    forall j | 0 <= j < |keys| ensures keys[j] in rows {
      var k := keys[j];
      assert k in keys;
    }
  }

  /** The rows stored under `keys`, in the order `keys` lists them. */
  function RowsAt<T>(rows: map<int, T>, keys: seq<int>): (r: seq<T>)
    requires forall k :: k in keys ==> k in rows
    ensures |r| == |keys|
    ensures forall j :: 0 <= j < |keys| ==> keys[j] in rows && r[j] == rows[keys[j]]
  {
    PresentAt(rows, keys);
    seq(|keys|, j requires 0 <= j < |keys| && keys[j] in rows => rows[keys[j]])
  }

  /** Looking up one more key appends its row. */
  lemma RowsAtAppend<T>(rows: map<int, T>, keys: seq<int>, k: int)
    requires forall k' :: k' in keys ==> k' in rows
    requires k in rows
    ensures RowsAt(rows, keys + [k]) == RowsAt(rows, keys) + [rows[k]]
  {
  }

  /** Looking up a run of consecutive positions in the index gives that slice of the dataset. */
  lemma RowsAtIndexed<T>(dataset: seq<T>, lo: int, hi: int)
    requires 0 <= lo <= hi <= |dataset|
    ensures RowsAt(Indexed(dataset).rows, Range(lo, hi)) == dataset[lo..hi]
  {
    var d := Indexed(dataset);
    var r := RowsAt(d.rows, Range(lo, hi));
    forall j | 0 <= j < hi - lo ensures r[j] == dataset[lo..hi][j] {
      assert Range(lo, hi)[j] == lo + j;
    }
  }

  /** `del d[k]` for a key k of the dict: the entry is gone, every other key keeps its row,
      and iteration visits the remaining keys in the same order as before. */
  function Remove<T>(d: Dict<T>, k: int): (e: Dict<T>)
    requires d.Valid()
    ensures e.Valid()
    ensures forall j :: j in e.rows <==> j in d.rows && j != k
    ensures forall j :: j in e.rows ==> e.rows[j] == d.rows[j]
    ensures Increasing(d.order) ==> Increasing(e.order)
  {
    DistinctWithout(d.order, k);
    IncreasingWithout(d.order, k);
    Dict(Without(d.order, k), d.rows - {k})
  }

  /** The index of `dataset` after `del index[k]`. */
  function Deleted<T>(dataset: seq<T>, k: int): (d: Dict<T>)
    requires 0 <= k < |dataset|
    ensures d.Valid() && Increasing(d.order)
    ensures forall j :: j in d.rows <==> 0 <= j < |dataset| && j != k
  {
    Remove(Indexed(dataset), k)
  }

  /** After `del index[k]`, iteration visits the positions below k, then those above it. */
  lemma DeletedOrder<T>(dataset: seq<T>, k: int)
    requires 0 <= k < |dataset|
    ensures Deleted(dataset, k).order == Range(0, k) + Range(k + 1, |dataset|)
  {
    var a, b := Range(0, k), Range(k + 1, |dataset|);
    IncreasingConcat(a, b);
    IncreasingUnique(Deleted(dataset, k).order, a + b);
  }

  /** Deleting key k leaves every other row under its position. */
  lemma DeletedRow<T>(dataset: seq<T>, k: int, j: int)
    requires 0 <= k < |dataset| && 0 <= j < |dataset| && j != k
    ensures j in Deleted(dataset, k).rows && Deleted(dataset, k).rows[j] == dataset[j]
  {
  }

  /** The rows of three present keys, in the order listed. */
  lemma RowsAtThree<T>(rows: map<int, T>, a: int, b: int, c: int)
    requires a in rows && b in rows && c in rows
    ensures RowsAt(rows, [a, b, c]) == [rows[a], rows[b], rows[c]]
  {
    var keys := [a, b, c];
    assert keys[0] == a && keys[1] == b && keys[2] == c;
  }

  /** The dict a hypermedia request returns: the requested `index`, the key to request next
      (or None), the number of rows on the page, and the rows themselves. */
  datatype HyperPage<T> = HyperPage(index: int, nextIndex: Option<int>, pageSize: int, data: seq<T>)
}
