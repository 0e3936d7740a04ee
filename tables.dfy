/** The pandas aggregations the dashboard uses: `value_counts`,
    `groupby(...).size()`, `groupby(...).sum()`, `nlargest` and `idxmax`. */
module Tables {
  import opened Seqs
  import opened Sorting

  /** The keys of a frequency table, in table order. */
  function KeysOf<K, V>(t: seq<(K, V)>): (ks: seq<K>)
    ensures |ks| == |t|
    ensures forall i :: 0 <= i < |t| ==> ks[i] == t[i].0
  {
    if t == [] then [] else [t[0].0] + KeysOf(t[1..])
  }

  /** The sum of the counts of a frequency table. */
  function TotalCount<K>(t: seq<(K, nat)>): nat {
    if t == [] then 0 else t[0].1 + TotalCount(t[1..])
  }

  /** The table that lists, for each key of `d` in order, how often it occurs in `keys`. */
  function Tabulate<K(==)>(keys: seq<K>, d: seq<K>): (t: seq<(K, nat)>)
    ensures KeysOf(t) == d
    ensures forall i :: 0 <= i < |t| ==> t[i].1 == Count(keys, d[i])
  {
    if d == [] then [] else [(d[0], Count(keys, d[0]))] + Tabulate(keys, d[1..])
  }

  lemma {:induction false} TabulateCons<K>(k: K, keys: seq<K>, d: seq<K>)
    requires NoDup(d)
    ensures TotalCount(Tabulate([k] + keys, d)) == TotalCount(Tabulate(keys, d)) + (if k in d then 1 else 0)
  {
    if d != [] {
      assert ([k] + keys)[1..] == keys;
      assert d[0] == k ==> k !in d[1..];
      TabulateCons(k, keys, d[1..]);
    }
  }

  /** Counting every key over a duplicate-free list that contains all of them
      accounts for every element exactly once. */
  lemma {:induction false} TabulateCovers<K>(keys: seq<K>, d: seq<K>)
    requires NoDup(d) && forall k :: k in keys ==> k in d
    ensures TotalCount(Tabulate(keys, d)) == |keys|
  {
    if keys == [] {
      EmptyCounts(d);
    } else {
      assert keys == [keys[0]] + keys[1..];
      TabulateCons(keys[0], keys[1..], d);
      TabulateCovers(keys[1..], d);
    }
  }

  lemma {:induction false} EmptyCounts<K>(d: seq<K>)
    ensures TotalCount(Tabulate([], d)) == 0
  {
    if d != [] {
      EmptyCounts(d[1..]);
    }
  }

  /** `groupby(key).size()`: one row per distinct key, keys in `le` order. */
  function GroupSizes<K(==,!new)>(keys: seq<K>, le: (K, K) -> bool): (t: seq<(K, nat)>)
    requires IsTotalPreorder(le)
    ensures NoDup(KeysOf(t))
    ensures SortedBy(KeysOf(t), le)
    ensures forall k :: k in KeysOf(t) <==> k in keys
    ensures forall i :: 0 <= i < |t| ==> t[i].1 == Count(keys, t[i].0) && t[i].1 > 0
    ensures TotalCount(t) == |keys|
  {
    var d := Sort(Distinct(keys), le);
    GroupKeys(keys, le, d);
    TabulateCovers(keys, d);
    Tabulate(keys, d)
  }

  /** The sorted distinct keys: no repeats, exactly the keys present. */
  lemma GroupKeys<K(!new)>(keys: seq<K>, le: (K, K) -> bool, d: seq<K>)
    requires IsTotalPreorder(le) && d == Sort(Distinct(keys), le)
    ensures NoDup(d)
    ensures forall k :: k in d <==> k in keys
  {
    var u := Distinct(keys);
    NoDupPermutation(d, u);
    forall k ensures k in d <==> k in keys {
      assert k in d <==> k in multiset(d);
      assert k in u <==> k in multiset(u);
    }
  }

  /** The position of a key present in a table. */
  lemma KeyAt<K, V>(t: seq<(K, V)>, k: K) returns (i: nat)
    requires k in KeysOf(t)
    ensures i < |t| && t[i].0 == k
  {
    var j :| 0 <= j < |KeysOf(t)| && KeysOf(t)[j] == k;
    i := j;
  }

  /** Orders keys by how often they occur in `keys`, most frequent first. */
  function MoreFrequent<K(==)>(keys: seq<K>): (K, K) -> bool {
    (a, b) => Count(keys, a) >= Count(keys, b)
  }

  lemma MoreFrequentIsTotalPreorder<K(!new)>(keys: seq<K>)
    ensures IsTotalPreorder(MoreFrequent(keys))
  {
  }

  /** `value_counts()`: one row per distinct value with its number of
      occurrences, counts non-increasing. The order among equal counts is
      not part of the contract. */
  function ValueCounts<K(==,!new)>(keys: seq<K>): (t: seq<(K, nat)>)
    ensures NoDup(KeysOf(t))
    ensures forall k :: k in KeysOf(t) <==> k in keys
    ensures forall i :: 0 <= i < |t| ==> t[i].1 == Count(keys, t[i].0) && t[i].1 > 0
    ensures forall i, j :: 0 <= i < j < |t| ==> t[i].1 >= t[j].1
    ensures TotalCount(t) == |keys|
  {
    MoreFrequentIsTotalPreorder(keys);
    var t := GroupSizes(keys, MoreFrequent(keys));
    assert forall i, j :: 0 <= i < j < |t| ==> MoreFrequent(keys)(KeysOf(t)[i], KeysOf(t)[j]);
    t
  }

  /** The most frequent value heads a non-empty `value_counts()` table. */
  lemma {:induction false} KeysOfAppend<K, V>(a: seq<(K, V)>, b: seq<(K, V)>)
    ensures KeysOf(a + b) == KeysOf(a) + KeysOf(b)
  {
    if a != [] {
      assert (a + b)[1..] == a[1..] + b;
      KeysOfAppend(a[1..], b);
    }
  }

  lemma {:induction false} TotalCountAppend<K>(a: seq<(K, nat)>, b: seq<(K, nat)>)
    ensures TotalCount(a + b) == TotalCount(a) + TotalCount(b)
  {
    if a != [] {
      assert (a + b)[1..] == a[1..] + b;
      TotalCountAppend(a[1..], b);
    } else {
      assert a + b == b;
    }
  }

  /** A zero-count row for each category of `categories` that is not `present`, in category order. */
  function ZeroRows<K(==,!new)>(categories: seq<K>, present: seq<K>): (z: seq<(K, nat)>)
    ensures forall i :: 0 <= i < |z| ==> z[i].1 == 0 && z[i].0 in categories && z[i].0 !in present
    ensures forall k :: k in KeysOf(z) <==> k in categories && k !in present
    ensures TotalCount(z) == 0
    ensures NoDup(categories) ==> NoDup(KeysOf(z))
  {
    if categories == [] then []
    else
      var rest := ZeroRows(categories[1..], present);
      if categories[0] in present then rest
      else
        [(categories[0], 0)] + rest
  }

  /** Appending zero rows for absent keys to a count table keeps its counts
      correct and their order non-increasing. */
  lemma CountsThenZeros<K(!new)>(values: seq<K>, counts: seq<(K, nat)>, zeros: seq<(K, nat)>)
    requires forall k :: k in KeysOf(counts) <==> k in values
    requires forall i :: 0 <= i < |counts| ==> counts[i].1 == Count(values, counts[i].0)
    requires forall i, j :: 0 <= i < j < |counts| ==> counts[i].1 >= counts[j].1
    requires forall i :: 0 <= i < |zeros| ==> zeros[i].1 == 0 && zeros[i].0 !in KeysOf(counts)
    ensures var t := counts + zeros;
      && (forall i :: 0 <= i < |t| ==> t[i].1 == Count(values, t[i].0))
      && (forall i, j :: 0 <= i < j < |t| ==> t[i].1 >= t[j].1)
  {
    var t := counts + zeros;
    forall i | 0 <= i < |t| ensures t[i].1 == Count(values, t[i].0) {
      if i >= |counts| {
        assert t[i] == zeros[i - |counts|];
      }
    }
    forall i, j | 0 <= i < j < |t| ensures t[i].1 >= t[j].1 {
      if j >= |counts| {
        assert t[j] == zeros[j - |counts|];
      }
    }
  }

  /** `value_counts()` of a categorical column: every declared category, the
      absent ones with count 0, in non-increasing order of count. */
  function CategoricalCounts<K(==,!new)>(values: seq<K>, categories: seq<K>): (t: seq<(K, nat)>)
    requires NoDup(categories)
    requires forall v :: v in values ==> v in categories
    ensures NoDup(KeysOf(t)) && |t| == |categories|
    ensures forall k :: k in KeysOf(t) <==> k in categories
    ensures forall i :: 0 <= i < |t| ==> t[i].1 == Count(values, t[i].0)
    ensures forall i, j :: 0 <= i < j < |t| ==> t[i].1 >= t[j].1
    ensures TotalCount(t) == |values|
  {
    var counts := ValueCounts(values);
    var zeros := ZeroRows(categories, KeysOf(counts));
    var t := counts + zeros;
    KeysOfAppend(counts, zeros);
    TotalCountAppend(counts, zeros);
    NoDupAppend(KeysOf(counts), KeysOf(zeros));
    CountsThenZeros(values, counts, zeros);
    NoDupSameElements(KeysOf(t), categories);
    t
  }

  /** The value counts list each distinct value once: as many entries as `unique()` has values. */
  lemma ValueCountsLength<K(!new)>(keys: seq<K>)
    ensures |ValueCounts(keys)| == |Distinct(keys)|
  {
    NoDupSameElements(KeysOf(ValueCounts(keys)), Distinct(keys));
  }

  lemma ValueCountsHeadIsMostFrequent<K(!new)>(keys: seq<K>, k: K)
    requires k in keys
    ensures |ValueCounts(keys)| > 0
    ensures Count(keys, k) <= ValueCounts(keys)[0].1
  {
    var t := ValueCounts(keys);
    assert k in KeysOf(t);
    var i :| 0 <= i < |t| && KeysOf(t)[i] == k;
  }

  /** Sums `w` over the positions whose key is `k` (`groupby(key)[w].sum()`). */
  function WeightOf<K(==)>(keys: seq<K>, w: seq<nat>, k: K): nat
    requires |keys| == |w|
  {
    if keys == [] then 0 else (if keys[0] == k then w[0] else 0) + WeightOf(keys[1..], w[1..], k)
  }

  /** The sum of the per-key weights over the keys of `d`. */
  function WeightsOver<K(==)>(keys: seq<K>, w: seq<nat>, d: seq<K>): nat
    requires |keys| == |w|
  {
    if d == [] then 0 else WeightOf(keys, w, d[0]) + WeightsOver(keys, w, d[1..])
  }

  lemma {:induction false} WeightsOverCons<K>(k: K, v: nat, keys: seq<K>, w: seq<nat>, d: seq<K>)
    requires |keys| == |w| && NoDup(d)
    ensures WeightsOver([k] + keys, [v] + w, d) == WeightsOver(keys, w, d) + (if k in d then v else 0)
  {
    if d != [] {
      assert ([k] + keys)[1..] == keys && ([v] + w)[1..] == w;
      assert d[0] == k ==> k !in d[1..];
      WeightsOverCons(k, v, keys, w, d[1..]);
    }
  }

  lemma {:induction false} WeightsOverEmpty<K>(d: seq<K>)
    ensures WeightsOver([], [], d) == 0
  {
    if d != [] {
      WeightsOverEmpty(d[1..]);
    }
  }

  /** Per-group sums over a duplicate-free key list covering every key add
      up to the grand total. */
  lemma {:induction false} WeightsCover<K>(keys: seq<K>, w: seq<nat>, d: seq<K>)
    requires |keys| == |w| && NoDup(d) && forall k :: k in keys ==> k in d
    ensures WeightsOver(keys, w, d) == Sum(w)
  {
    if keys == [] {
      WeightsOverEmpty(d);
    } else {
      assert keys == [keys[0]] + keys[1..] && w == [w[0]] + w[1..];
      WeightsOverCons(keys[0], w[0], keys[1..], w[1..], d);
      WeightsCover(keys[1..], w[1..], d);
    }
  }

  /** Orders values by `key`, largest first. */
  function LargerFirst<T>(key: T -> int): (T, T) -> bool {
    (a, b) => key(a) >= key(b)
  }

  lemma LargerFirstIsTotalPreorder<T(!new)>(key: T -> int)
    ensures IsTotalPreorder(LargerFirst(key))
  {
  }

  /** Stable sort by `key`, largest first (`sort_values(key, ascending=False)`). */
  function SortLargerFirst<T(!new)>(s: seq<T>, key: T -> int): (r: seq<T>)
    ensures SortedBy(r, LargerFirst(key))
    ensures multiset(r) == multiset(s)
    ensures |r| == |s|
  {
    LargerFirstIsTotalPreorder(key);
    Sort(s, LargerFirst(key))
  }

  /** `idxmax()`: the first position holding the largest key. */
  function FirstArgMax<T>(s: seq<T>, key: T -> int): (i: nat)
    requires |s| > 0
    ensures i < |s|
    ensures forall j :: 0 <= j < |s| ==> key(s[j]) <= key(s[i])
    ensures forall j :: 0 <= j < i ==> key(s[j]) < key(s[i])
  {
    if |s| == 1 then 0
    else
      var j := 1 + FirstArgMax(s[1..], key);
      if key(s[0]) >= key(s[j]) then 0 else j
  }

  /** `nlargest(n, key)` with `keep='first'`: the `n` elements with the
      largest keys, largest first, earlier elements first among equal keys. */
  function NLargest<T(==,!new)>(s: seq<T>, n: nat, key: T -> int): (r: seq<T>)
    ensures |r| == if |s| <= n then |s| else n
    ensures multiset(r) <= multiset(s)
    ensures forall x :: x in r ==> x in s
    ensures forall i, j :: 0 <= i < j < |r| ==> key(r[i]) >= key(r[j])
    ensures forall x :: x in s && x !in r ==> forall y :: y in r ==> key(x) <= key(y)
  {
    var sorted := SortLargerFirst(s, key);
    NLargestSplit(sorted, n, key);
    SameElements(s, sorted);
    Take(sorted, n)
  }

  lemma SameElements<T>(a: seq<T>, b: seq<T>)
    requires multiset(a) == multiset(b)
    ensures forall x :: x in a <==> x in b
  {
    forall x ensures x in a <==> x in b {
      assert x in a <==> x in multiset(a);
      assert x in b <==> x in multiset(b);
    }
  }

  lemma NLargestSplit<T(!new)>(sorted: seq<T>, n: nat, key: T -> int)
    requires SortedBy(sorted, LargerFirst(key))
    ensures multiset(Take(sorted, n)) <= multiset(sorted)
    ensures forall x :: x in Take(sorted, n) ==> x in sorted
    ensures forall x :: x in sorted && x !in Take(sorted, n) ==> forall y :: y in Take(sorted, n) ==> key(x) <= key(y)
  {
    var r := Take(sorted, n);
    assert sorted == r + sorted[|r|..];
    forall x, y | x in sorted && x !in r && y in r
      ensures key(x) <= key(y)
    {
      var i :| 0 <= i < |sorted| && sorted[i] == x;
      var j :| 0 <= j < |r| && r[j] == y;
      assert i >= |r|;
      assert LargerFirst(key)(sorted[j], sorted[i]);
    }
  }

  /** The head of `nlargest` is the element `idxmax` picks. */
  lemma {:induction false} SortedHeadIsFirstArgMax<T(!new)>(s: seq<T>, key: T -> int)
    requires |s| > 0
    ensures SortLargerFirst(s, key)[0] == s[FirstArgMax(s, key)]
  {
    if |s| > 1 {
      SortedHeadIsFirstArgMax(s[1..], key);
    }
  }

  lemma NLargestOneIsFirstArgMax<T(!new)>(s: seq<T>, key: T -> int)
    requires |s| > 0
    ensures NLargest(s, 1, key) == [s[FirstArgMax(s, key)]]
  {
    SortedHeadIsFirstArgMax(s, key);
  }
}
