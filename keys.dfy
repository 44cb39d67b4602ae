/** Integer keys: ranges, the filter `k >= index`, prefixes, and Python's `sorted`/`max`
    over a set of keys. */
module Keys {

  /** Python's `range(lo, hi)`: the integers lo, lo + 1, ..., hi - 1 in ascending order. */
  function Range(lo: int, hi: int): (r: seq<int>)
    ensures |r| == if lo <= hi then hi - lo else 0
    ensures forall i :: 0 <= i < |r| ==> r[i] == lo + i
    ensures forall k :: k in r <==> lo <= k < hi
    decreases hi - lo
  {
    if hi <= lo then [] else Range(lo, hi - 1) + [hi - 1]
  }

  /** Strictly ascending, hence also free of duplicates. */
  ghost predicate Increasing(s: seq<int>)
  {
    forall i, j :: 0 <= i < j < |s| ==> s[i] < s[j]
  }

  /** The keys of `s` that are at least `index`, in the order `s` lists them. */
  function AtLeast(s: seq<int>, index: int): (r: seq<int>)
    ensures forall k :: k in r <==> k in s && index <= k
    ensures |r| <= |s|
  {
    if s == [] then []
    else
      var last := s[|s| - 1];
      assert s == s[..|s| - 1] + [last];
      AtLeast(s[..|s| - 1], index) + (if index <= last then [last] else [])
  }

  /** The keys of `s` other than `k`, in the order `s` lists them. */
  function Without(s: seq<int>, k: int): (r: seq<int>)
    ensures forall x :: x in r <==> x in s && x != k
  {
    if s == [] then []
    else
      var last := s[|s| - 1];
      assert s == s[..|s| - 1] + [last];
      Without(s[..|s| - 1], k) + (if last == k then [] else [last])
  }

  /** The first `n` elements of `s`, or all of them if there are fewer (Python's `s[:n]`
      for n >= 0; no element at all for n <= 0). */
  function Prefix<X>(s: seq<X>, n: int): (r: seq<X>)
    ensures |r| == if n <= 0 then 0 else if n < |s| then n else |s|
    ensures forall i :: 0 <= i < |r| ==> r[i] == s[i]
    ensures forall x :: x in r ==> x in s
  {
    if n <= 0 then []
    else if n < |s| then
      Members(s);
      s[..n]
    else s
  }

  /** Each element of a sequence is one of its members. */
  lemma Members<X>(s: seq<X>)
    ensures forall i :: 0 <= i < |s| ==> s[i] in s
  {
    forall i | 0 <= i < |s| ensures s[i] in s {
    }
  }

  /** Filtering distributes over concatenation. */
  lemma {:induction false} AtLeastAppend(a: seq<int>, b: seq<int>, index: int)
    ensures AtLeast(a + b, index) == AtLeast(a, index) + AtLeast(b, index)
    decreases |b|
  {
    if b == [] {
      assert a + b == a;
    } else {
      var b' := b[..|b| - 1];
      assert (a + b)[..|a + b| - 1] == a + b';
      AtLeastAppend(a, b', index);
    }
  }

  /** The keys a scan has kept after visiting a prefix of `s` lead the keys it keeps over all of `s`. */
  lemma AtLeastOfPrefix(s: seq<int>, j: int, index: int)
    requires 0 <= j <= |s|
    ensures var p := AtLeast(s[..j], index);
      |p| <= |AtLeast(s, index)| && AtLeast(s, index)[..|p|] == p
  {
    assert s == s[..j] + s[j..];
    AtLeastAppend(s[..j], s[j..], index);
  }

  /** One more step of a scan: visiting `s[j]` keeps it exactly when it is at least `index`. */
  lemma AtLeastStep(s: seq<int>, j: int, index: int)
    requires 0 <= j < |s|
    ensures AtLeast(s[..j + 1], index) == AtLeast(s[..j], index) + (if index <= s[j] then [s[j]] else [])
  {
    assert s[..j + 1][..j] == s[..j];
  }

  /** Filtering an ascending sequence leaves it ascending. */
  lemma {:induction false} AtLeastIncreasing(s: seq<int>, index: int)
    requires Increasing(s)
    ensures Increasing(AtLeast(s, index))
    decreases |s|
  {
    if s != [] {
      var s' := s[..|s| - 1];
      AtLeastIncreasing(s', index);
      var r' := AtLeast(s', index);
      forall k | k in r' ensures k < s[|s| - 1] {
        var i :| 0 <= i < |s'| && s'[i] == k;
        assert s[i] == k;
      }
      var r := AtLeast(s, index);
      assert r == r' + (if index <= s[|s| - 1] then [s[|s| - 1]] else []);
      forall i, j | 0 <= i < j < |r| ensures r[i] < r[j] {
        if j == |r'| {
          assert r[i] == r'[i];
          assert r'[i] in r';
        }
      }
    }
  }

  /** A non-empty prefix of an ascending sequence holds exactly its elements up to the last
      element of the prefix. */
  lemma PrefixUpTo(s: seq<int>, n: int)
    requires Increasing(s) && Prefix(s, n) != []
    ensures var p := Prefix(s, n);
      forall k :: k in p <==> k in s && k <= p[|p| - 1]
  {
    var p := Prefix(s, n);
    var m := |p|;
    forall k ensures k in p <==> k in s && k <= p[m - 1] {
      if k in p {
        var t :| 0 <= t < m && p[t] == k;
        assert s[t] <= s[m - 1];
      }
      if k in s && k <= p[m - 1] {
        var t :| 0 <= t < |s| && s[t] == k;
        assert t < m;
        assert p[t] == k;
      }
    }
  }

  /** A prefix of an ascending sequence is ascending. */
  lemma PrefixIncreasing(s: seq<int>, n: int)
    requires Increasing(s)
    ensures Increasing(Prefix(s, n))
  {
  }

  /** An ascending sequence starts with its least element. */
  lemma IncreasingHead(s: seq<int>, k: int)
    requires Increasing(s) && k in s
    ensures s[0] <= k
  {
    var i :| 0 <= i < |s| && s[i] == k;
  }

  /** Two ascending sequences with the same elements are the same sequence. */
  lemma {:induction false} IncreasingUnique(a: seq<int>, b: seq<int>)
    requires Increasing(a) && Increasing(b)
    requires forall k :: k in a <==> k in b
    ensures a == b
    decreases |a|
  {
    assert |b| > 0 ==> b[0] in b && b[0] in a;
    if a != [] {
      assert a[0] in a;
      assert b != [] by { assert a[0] in b; }
      assert b[0] in b;
      IncreasingHead(a, b[0]);
      IncreasingHead(b, a[0]);
      forall k ensures k in a[1..] <==> k in b[1..] {
        IncreasingTail(a, k);
        IncreasingTail(b, k);
      }
      IncreasingUnique(a[1..], b[1..]);
      assert a == [a[0]] + a[1..];
      assert b == [b[0]] + b[1..];
    }
  }

  /** Past its head, an ascending sequence holds exactly its other elements. */
  lemma IncreasingTail(s: seq<int>, k: int)
    requires Increasing(s) && s != []
    ensures k in s[1..] <==> k in s && k != s[0]
  {
    assert s == [s[0]] + s[1..];
    if k in s[1..] {
      var i :| 0 <= i < |s[1..]| && s[1..][i] == k;
      assert s[i + 1] == k;
    }
  }

  /** Two ascending runs, the first wholly below the second, make one ascending run. */
  lemma IncreasingConcat(a: seq<int>, b: seq<int>)
    requires Increasing(a) && Increasing(b)
    requires forall x, y :: x in a && y in b ==> x < y
    ensures Increasing(a + b)
  {
    forall i, j | 0 <= i < j < |a + b| ensures (a + b)[i] < (a + b)[j] {
      if i < |a| <= j {
        assert a[i] in a && b[j - |a|] in b;
      }
    }
  }

  /** No key is listed twice (the keys of a dict). */
  ghost predicate Distinct(s: seq<int>)
  {
    forall i, j :: 0 <= i < j < |s| ==> s[i] != s[j]
  }

  /** Places `x` into the ascending sequence `r` before the first element it does not exceed. */
  function Insert(x: int, r: seq<int>): (q: seq<int>)
    ensures forall k :: k in q <==> k == x || k in r
  {
    if r == [] then [x]
    else if x <= r[0] then [x] + r
    else
      var q' := Insert(x, r[1..]);
      assert forall k :: k in r <==> k == r[0] || k in r[1..] by {
        assert r == [r[0]] + r[1..];
      }
      [r[0]] + q'
  }

  /** A key below every key of an ascending sequence can lead it. */
  lemma IncreasingCons(h: int, t: seq<int>)
    requires Increasing(t)
    requires forall k :: k in t ==> h < k
    ensures Increasing([h] + t)
  {
    var q := [h] + t;
    forall i, j | 0 <= i < j < |q| ensures q[i] < q[j] {
      if i == 0 {
        var k := t[j - 1];
        assert k in t;
      } else {
        assert q[i] == t[i - 1] && q[j] == t[j - 1];
      }
    }
  }

  /** Inserting a new key keeps an ascending sequence ascending. */
  lemma {:induction false} InsertIncreasing(x: int, r: seq<int>)
    requires Increasing(r) && x !in r
    ensures Increasing(Insert(x, r))
  {
    if r == [] {
    } else if x <= r[0] {
      forall k | k in r ensures x < k {
        IncreasingHead(r, k);
      }
      IncreasingCons(x, r);
    } else {
      var q' := Insert(x, r[1..]);
      assert x !in r[1..];
      InsertIncreasing(x, r[1..]);
      forall k | k in q' ensures r[0] < k {
        if k in r[1..] {
          IncreasingTail(r, k);
          IncreasingHead(r, k);
        }
      }
      IncreasingCons(r[0], q');
    }
  }

  /** Dropping a key from a listing without repeats leaves no repeats. */
  lemma {:induction false} DistinctWithout(s: seq<int>, k: int)
    requires Distinct(s)
    ensures Distinct(Without(s, k))
    decreases |s|
  {
    if s != [] {
      var s', last := s[..|s| - 1], s[|s| - 1];
      assert Distinct(s');
      DistinctWithout(s', k);
      var r' := Without(s', k);
      assert last !in s' by {
        forall i | 0 <= i < |s'| ensures s'[i] != last {
          assert s[i] == s'[i];
        }
      }
      var r := Without(s, k);
      assert r == r' + (if last == k then [] else [last]);
      forall i, j | 0 <= i < j < |r| ensures r[i] != r[j] {
        if j == |r'| {
          assert r[i] == r'[i] && r'[i] in r';
        }
      }
    }
  }

  /** Dropping a key from an ascending sequence leaves it ascending. */
  lemma {:induction false} IncreasingWithout(s: seq<int>, k: int)
    ensures Increasing(s) ==> Increasing(Without(s, k))
    decreases |s|
  {
    if s != [] && Increasing(s) {
      var s', last := s[..|s| - 1], s[|s| - 1];
      IncreasingWithout(s', k);
      var r' := Without(s', k);
      forall x | x in r' ensures x < last {
        var i :| 0 <= i < |s'| && s'[i] == x;
        assert s[i] == x;
      }
      var r := Without(s, k);
      assert r == r' + (if last == k then [] else [last]);
      forall i, j | 0 <= i < j < |r| ensures r[i] < r[j] {
        if j == |r'| {
          assert r[i] == r'[i] && r'[i] in r';
        }
      }
    }
  }

  /** Python's `sorted` over the keys of a dict: the same keys, in ascending order. */
  function Sorted(s: seq<int>): (r: seq<int>)
    ensures forall k :: k in r <==> k in s
  {
    if s == [] then []
    else
      assert forall k :: k in s <==> k == s[0] || k in s[1..] by {
        assert s == [s[0]] + s[1..];
      }
      Insert(s[0], Sorted(s[1..]))
  }

  /** Sorting distinct keys lists them in strictly ascending order. */
  lemma {:induction false} SortedIncreasing(s: seq<int>)
    requires Distinct(s)
    ensures Increasing(Sorted(s))
  {
    if s != [] {
      SortedIncreasing(s[1..]);
      assert s[0] !in s[1..];
      InsertIncreasing(s[0], Sorted(s[1..]));
    }
  }

  /** `sorted` has a single possible outcome on distinct keys: any ascending listing of them is it. */
  lemma SortedUnique(s: seq<int>, r: seq<int>)
    requires Distinct(s) && Increasing(r)
    requires forall k :: k in r <==> k in s
    ensures Sorted(s) == r
  {
    SortedIncreasing(s);
    IncreasingUnique(Sorted(s), r);
  }

  /** Python's `max` over a non-empty sequence of keys. */
  function Max(s: seq<int>): (m: int)
    requires s != []
    ensures m in s && forall k :: k in s ==> k <= m
  {
    if |s| == 1 then s[0]
    else
      var m' := Max(s[1..]);
      assert forall k :: k in s <==> k == s[0] || k in s[1..] by {
        assert s == [s[0]] + s[1..];
      }
      if s[0] < m' then m' else s[0]
  }

  /** The keys at least `index` in a run of consecutive keys are the tail of the run. */
  lemma AtLeastRange(lo: int, hi: int, index: int)
    ensures AtLeast(Range(lo, hi), index) == Range(if lo < index then index else lo, hi)
  {
    assert Increasing(Range(lo, hi));
    AtLeastIncreasing(Range(lo, hi), index);
    IncreasingUnique(AtLeast(Range(lo, hi), index), Range(if lo < index then index else lo, hi));
  }

  /** The first `n` keys of a run of consecutive keys are a shorter run. */
  lemma PrefixRange(lo: int, hi: int, n: int)
    requires lo <= hi
    ensures Prefix(Range(lo, hi), n) == Range(lo, if n <= 0 then lo else if lo + n < hi then lo + n else hi)
  {
  }
}
