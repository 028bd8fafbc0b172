/** `sort_by_key` and `sort_by_cached_key`. The latter sorts pairs of a key and an index, stored in
    the narrowest integer type that holds the indices, and then permutes the slice in place by
    chasing the indices that earlier swaps have moved. */
module CachedKey {
  import opened StableOrder
  import opened Comparators
  import opened SliceSort
  import opened Options

  datatype Keyed<K> = Keyed(key: K, index: nat)

  /** The order of tuples: by key, then by index. */
  predicate Lexicographic<K>(keyLess: (K, K) -> bool, a: Keyed<K>, b: Keyed<K>) {
    keyLess(a.key, b.key) || (!keyLess(b.key, a.key) && a.index < b.index)
  }

  function ByKey<T, K>(key: T -> K, keyLess: (K, K) -> bool): (T, T) -> bool {
    (a: T, b: T) => keyLess(key(a), key(b))
  }

  function ByTuple<K>(keyLess: (K, K) -> bool): (Keyed<K>, Keyed<K>) -> bool {
    (a: Keyed<K>, b: Keyed<K>) => Lexicographic(keyLess, a, b)
  }

  /** No key is less than that of an earlier element. */
  ghost predicate KeysInOrder<T, K>(key: T -> K, keyLess: (K, K) -> bool, s: seq<T>) {
    forall i, j :: 0 <= i < j < |s| ==> !keyLess(key(s[j]), key(s[i]))
  }

  // ---- Key closures ----

  /** The key closure is called on its own history and one element, and may panic (`None`). This one
      always answers by `key`. */
  ghost predicate Extracts<T(!new), K(!new)>(extract: (seq<T>, T) -> Option<K>, key: T -> K) {
    forall h, x :: extract(h, x) == Some(key(x))
  }

  /** `K::lt`, which may answer differently every time. This one always answers by `keyLess`. */
  ghost predicate Compares<T(!new), K(!new)>(lt: (seq<(T, T)>, K, K) -> Answer, keyLess: (K, K) -> bool) {
    forall h, a, b :: lt(h, a, b) == AnswerOf(keyLess(a, b))
  }

  /** The elements on which the key closure was called, when these were compared. */
  function KeysCalled<T>(h: seq<(T, T)>): seq<T> {
    if h == [] then [] else KeysCalled(h[..|h| - 1]) + [h[|h| - 1].0, h[|h| - 1].1]
  }

  /** The comparator of `sort_by_key`: `f(a).lt(&f(b))`. */
  function ByExtractedKey<T, K>(extract: (seq<T>, T) -> Option<K>, lt: (seq<(T, T)>, K, K) -> Answer)
    : (seq<(T, T)>, T, T) -> Answer
  {
    (h: seq<(T, T)>, a: T, b: T) =>
      var called := KeysCalled(h);
      var ka, kb := extract(called, a), extract(called + [a], b);
      if ka.None? || kb.None? then Panic else lt(h, ka.value, kb.value)
  }

  lemma ByTupleOrders<K(!new)>(keyLess: (K, K) -> bool)
    requires StrictWeakOrder(keyLess)
    ensures StrictWeakOrder(ByTuple(keyLess))
  {
    var less := ByTuple(keyLess);
    forall a, b, c | less(a, c) ensures less(a, b) || less(b, c) {
      assert keyLess(a.key, c.key) ==> keyLess(a.key, b.key) || keyLess(b.key, c.key);
    }
  }

  /** `sort_by_key`, for any key closure and any order of the keys. `key` and `keyLess` are what the
      caller has in mind. */
  method SortByKey<T(!new), K(!new)>(v: array<T>, elemSize: nat, extract: (seq<T>, T) -> Option<K>,
                                     lt: (seq<(T, T)>, K, K) -> Answer,
                                     ghost key: T -> K, ghost keyLess: (K, K) -> bool)
    returns (ok: bool)
    modifies v
    ensures multiset(v[..]) == multiset(old(v[..]))
    ensures !ok ==> exists h, a, b :: ByExtractedKey(extract, lt)(h, a, b) == Panic
    ensures Extracts(extract, key) && Compares(lt, keyLess) && StrictWeakOrder(keyLess) ==>
              && ok
              && (elemSize > 0 ==>
                    StableSortOf(ByKey(key, keyLess), old(v[..]), v[..]) && KeysInOrder(key, keyLess, v[..]))
    ensures elemSize == 0 ==> ok && v[..] == old(v[..])
  {
    var cmp := new Comparator(ByExtractedKey(extract, lt));
    ok := MergeSort(v, elemSize, cmp, ByKey(key, keyLess));
  }

  /** Stands for `sort_unstable`, of which only this contract is used: a permutation for any `Ord`, and
      a sorted one for a lawful one. */
  method SortUnstable<K(!new)>(a: array<Keyed<K>>, cmp: Comparator<Keyed<K>>,
                               ghost less: (Keyed<K>, Keyed<K>) -> bool)
    returns (ok: bool)
    modifies a, cmp
    ensures multiset(a[..]) == multiset(old(a[..]))
    ensures cmp.Orders(less) ==> ok && Sorted(less, a[..])
    ensures cmp.Ended(ok, old(cmp.Panics()))
  {
    ok := MergeSort(a, 1, cmp, less);
  }

  // ---- Gathering by sorted indices is a stable sort ----

  ghost predicate AreIndices(ix: seq<nat>, n: nat) {
    forall i :: 0 <= i < |ix| ==> ix[i] < n
  }

  /** The elements of `s` at the indices `ix`. */
  ghost function Gather<T>(s: seq<T>, ix: seq<nat>): (r: seq<T>)
    requires AreIndices(ix, |s|)
    ensures |r| == |ix| && forall i :: 0 <= i < |ix| ==> r[i] == s[ix[i]]
  {
    seq(|ix|, i requires 0 <= i < |ix| => s[ix[i]])
  }

  ghost function Iota(n: nat): (r: seq<nat>)
    ensures |r| == n && forall i :: 0 <= i < n ==> r[i] == i
  {
    seq(n, i => i)
  }

  /** The indices among `ix` whose elements are equivalent to `x`. */
  ghost function IndexClass<T>(less: (T, T) -> bool, x: T, s: seq<T>, ix: seq<nat>): seq<nat>
    requires AreIndices(ix, |s|)
  {
    if ix == [] then []
    else (if Equivalent(less, x, s[ix[0]]) then [ix[0]] else []) + IndexClass(less, x, s, ix[1..])
  }

  lemma {:induction false} IndexClassCounts<T>(less: (T, T) -> bool, x: T, s: seq<T>, ix: seq<nat>, k: nat)
    requires AreIndices(ix, |s|)
    ensures multiset(IndexClass(less, x, s, ix))[k] ==
            if k < |s| && Equivalent(less, x, s[k]) then multiset(ix)[k] else 0
  {
    if ix != [] {
      IndexClassCounts(less, x, s, ix[1..], k);
      assert ix == [ix[0]] + ix[1..];
    }
  }

  lemma {:induction false} IndexClassIndices<T>(less: (T, T) -> bool, x: T, s: seq<T>, ix: seq<nat>)
    requires AreIndices(ix, |s|)
    ensures AreIndices(IndexClass(less, x, s, ix), |s|)
  {
    if ix != [] {
      IndexClassIndices(less, x, s, ix[1..]);
    }
  }

  lemma GatherConcat<T>(s: seq<T>, a: seq<nat>, b: seq<nat>)
    requires AreIndices(a, |s|) && AreIndices(b, |s|)
    ensures AreIndices(a + b, |s|) && Gather(s, a + b) == Gather(s, a) + Gather(s, b)
  {
  }

  lemma {:induction false} ClassOfGather<T>(less: (T, T) -> bool, x: T, s: seq<T>, ix: seq<nat>)
    requires AreIndices(ix, |s|)
    ensures AreIndices(IndexClass(less, x, s, ix), |s|)
    ensures Class(less, x, Gather(s, ix)) == Gather(s, IndexClass(less, x, s, ix))
  {
    IndexClassIndices(less, x, s, ix);
    if ix != [] {
      var head: seq<nat>, rest := if Equivalent(less, x, s[ix[0]]) then [ix[0]] else [], ix[1..];
      IndexClassIndices(less, x, s, rest);
      ClassOfGather(less, x, s, rest);
      GatherConcat(s, head, IndexClass(less, x, s, rest));
      assert Gather(s, ix)[1..] == Gather(s, rest);
      assert Gather(s, head) == if head == [] then [] else [s[ix[0]]];
    }
  }

  ghost predicate Increasing(ix: seq<nat>) {
    forall i, j :: 0 <= i < j < |ix| ==> ix[i] < ix[j]
  }

  /** Whatever is equivalent to `x` has its indices in increasing order. */
  ghost predicate ClassIncreasing<T>(less: (T, T) -> bool, x: T, s: seq<T>, ix: seq<nat>)
    requires AreIndices(ix, |s|)
  {
    forall i, j :: 0 <= i < j < |ix| && Equivalent(less, x, s[ix[i]]) && Equivalent(less, x, s[ix[j]])
                   ==> ix[i] < ix[j]
  }

  lemma {:induction false} IndexClassIncreasing<T>(less: (T, T) -> bool, x: T, s: seq<T>, ix: seq<nat>)
    requires AreIndices(ix, |s|) && ClassIncreasing(less, x, s, ix)
    ensures Increasing(IndexClass(less, x, s, ix))
  {
    if ix != [] {
      IndexClassIncreasing(less, x, s, ix[1..]);
      if Equivalent(less, x, s[ix[0]]) {
        HeadIsLeast(less, x, s, ix);
        IncreasingCons(ix[0], IndexClass(less, x, s, ix[1..]));
      }
    }
  }

  lemma IncreasingCons(a: nat, s: seq<nat>)
    requires Increasing(s) && forall k :: k in s ==> a < k
    ensures Increasing([a] + s)
  {
    var r := [a] + s;
    assert forall i :: 0 < i < |r| ==> r[i] == s[i - 1] && s[i - 1] in s;
  }

  lemma HeadIsLeast<T>(less: (T, T) -> bool, x: T, s: seq<T>, ix: seq<nat>)
    requires AreIndices(ix, |s|) && ClassIncreasing(less, x, s, ix)
    requires ix != [] && Equivalent(less, x, s[ix[0]])
    ensures forall k :: k in IndexClass(less, x, s, ix[1..]) ==> ix[0] < k
  {
    forall k | k in IndexClass(less, x, s, ix[1..]) ensures ix[0] < k {
      IndexClassCounts(less, x, s, ix[1..], k);
      assert k in multiset(ix[1..]);
      var j :| 0 <= j < |ix[1..]| && ix[1..][j] == k;
      assert ix[j + 1] == k;
    }
  }

  lemma {:induction false} IncreasingUnique(a: seq<nat>, b: seq<nat>)
    requires Increasing(a) && Increasing(b) && multiset(a) == multiset(b)
    ensures a == b
  {
    assert |multiset(a)| == |a| && |multiset(b)| == |b|;
    if a != [] {
      assert a[0] in multiset(b) && b[0] in multiset(a);
      assert a[0] == b[0];
      TailMultiset(a);
      TailMultiset(b);
      IncreasingTail(a);
      IncreasingTail(b);
      IncreasingUnique(a[1..], b[1..]);
    }
  }

  lemma IncreasingTail(s: seq<nat>)
    requires s != [] && Increasing(s)
    ensures Increasing(s[1..])
  {
  }

  lemma TailMultiset<A>(s: seq<A>)
    requires s != []
    ensures s == [s[0]] + s[1..] && multiset(s[1..]) == multiset(s) - multiset{s[0]}
  {
    assert s == [s[0]] + s[1..];
  }

  /** Gathering a permutation of the indices that is increasing on every class keeps the classes. */
  lemma GatherKeepsClasses<T(!new)>(less: (T, T) -> bool, s: seq<T>, ix: seq<nat>)
    requires AreIndices(ix, |s|) && multiset(ix) == multiset(Iota(|s|))
    requires forall x :: ClassIncreasing(less, x, s, ix)
    ensures SameClasses(less, s, Gather(s, ix))
  {
    var id := Iota(|s|);
    forall x ensures Class(less, x, s) == Class(less, x, Gather(s, ix)) {
      assert Gather(s, id) == s;
      ClassOfGather(less, x, s, id);
      ClassOfGather(less, x, s, ix);
      IndexClassIncreasing(less, x, s, id);
      IndexClassIncreasing(less, x, s, ix);
      forall k ensures multiset(IndexClass(less, x, s, id))[k] == multiset(IndexClass(less, x, s, ix))[k] {
        IndexClassCounts(less, x, s, id, k);
        IndexClassCounts(less, x, s, ix, k);
      }
      IncreasingUnique(IndexClass(less, x, s, id), IndexClass(less, x, s, ix));
    }
  }

  /** The pairs that are sorted: every element's key with its index. */
  ghost function Keys<T, K>(s: seq<T>, key: T -> K): (r: seq<Keyed<K>>)
    ensures |r| == |s| && forall i :: 0 <= i < |s| ==> r[i] == Keyed(key(s[i]), i)
  {
    seq(|s|, i requires 0 <= i < |s| => Keyed(key(s[i]), i))
  }

  ghost function Indices<K>(a: seq<Keyed<K>>): (r: seq<nat>)
    ensures |r| == |a| && forall i :: 0 <= i < |a| ==> r[i] == a[i].index
  {
    seq(|a|, i requires 0 <= i < |a| => a[i].index)
  }

  ghost function Mapped<A, B>(f: A -> B, s: seq<A>): (r: seq<B>)
    ensures |r| == |s| && forall i :: 0 <= i < |s| ==> r[i] == f(s[i])
  {
    seq(|s|, i requires 0 <= i < |s| => f(s[i]))
  }

  lemma MappedWithout<A, B>(f: A -> B, s: seq<A>, j: nat)
    requires j < |s|
    ensures var s' := s[..j] + s[j + 1..];
            && multiset(s) == multiset(s') + multiset{s[j]}
            && multiset(Mapped(f, s)) == multiset(Mapped(f, s')) + multiset{f(s[j])}
  {
    var r, r' := Mapped(f, s), Mapped(f, s[..j] + s[j + 1..]);
    assert s == s[..j] + [s[j]] + s[j + 1..];
    assert r == r[..j] + [f(s[j])] + r[j + 1..];
    assert r' == r[..j] + r[j + 1..];
  }

  lemma Cancel<A>(a: multiset<A>, b: multiset<A>, x: A)
    requires a + multiset{x} == b + multiset{x}
    ensures a == b
  {
    assert a == a + multiset{x} - multiset{x};
    assert b == b + multiset{x} - multiset{x};
  }

  /** A permutation stays one when a function is applied to its elements. */
  lemma {:induction false} MappedPermutes<A, B>(f: A -> B, a: seq<A>, b: seq<A>)
    requires multiset(a) == multiset(b)
    ensures multiset(Mapped(f, a)) == multiset(Mapped(f, b))
    decreases |a|
  {
    assert |multiset(a)| == |a| && |multiset(b)| == |b|;
    if a != [] {
      assert a[0] in multiset(b);
      var j :| 0 <= j < |b| && b[j] == a[0];
      MappedWithout(f, a, 0);
      MappedWithout(f, b, j);
      var a', b' := a[..0] + a[1..], b[..j] + b[j + 1..];
      Cancel(multiset(a'), multiset(b'), a[0]);
      MappedPermutes(f, a', b');
    }
  }

  lemma IndicesPermuted<K>(a: seq<Keyed<K>>, b: seq<Keyed<K>>)
    requires multiset(a) == multiset(b)
    ensures multiset(Indices(a)) == multiset(Indices(b))
  {
    var f := (x: Keyed<K>) => x.index;
    MappedPermutes(f, a, b);
    assert Indices(a) == Mapped(f, a) && Indices(b) == Mapped(f, b);
  }

  /** The indices of the pairs, in whatever order they end up. */
  lemma PairsPermuted<K>(a: seq<Keyed<K>>, b: seq<Keyed<K>>, n: nat)
    requires multiset(a) == multiset(b) && |b| == n && forall i :: 0 <= i < n ==> b[i].index == i
    ensures |a| == n && AreIndices(Indices(a), n) && multiset(Indices(a)) == multiset(Iota(n))
  {
    assert |multiset(a)| == |a|;
    IndicesPermuted(a, b);
    assert Indices(b) == Iota(n);
    forall i | 0 <= i < |a| ensures a[i].index < n {
      assert a[i] in multiset(b);
    }
  }

  /** What is known of the pairs once they are sorted. */
  lemma SortedPairs<T, K>(s: seq<T>, key: T -> K, a: seq<Keyed<K>>)
    requires multiset(a) == multiset(Keys(s, key))
    ensures |a| == |s| && multiset(Indices(a)) == multiset(Iota(|s|))
    ensures forall i :: 0 <= i < |a| ==> a[i].index < |s| && a[i].key == key(s[a[i].index])
  {
    PairsPermuted(a, Keys(s, key), |s|);
    forall i | 0 <= i < |a| ensures a[i] in Keys(s, key) {
      assert a[i] in multiset(a);
    }
  }

  lemma {:induction false} DistinctIndices(ix: seq<nat>, n: nat, i: nat, j: nat)
    requires multiset(ix) == multiset(Iota(n)) && i < j < |ix|
    ensures ix[i] != ix[j]
  {
    if ix[i] == ix[j] {
      var k := ix[i];
      assert ix == ix[..i] + [k] + ix[i + 1..j] + [k] + ix[j + 1..];
      assert multiset(ix)[k] >= 2;
      IotaCount(n, k);
    }
  }

  lemma {:induction false} IotaCount(n: nat, k: nat)
    ensures multiset(Iota(n))[k] == if k < n then 1 else 0
  {
    if n > 0 {
      assert Iota(n) == Iota(n - 1) + [n - 1];
      IotaCount(n - 1, k);
    }
  }

  /** Gathering by the sorted pairs is the stable sort by key. */
  lemma GatherSorts<T(!new), K(!new)>(s: seq<T>, key: T -> K, keyLess: (K, K) -> bool, a: seq<Keyed<K>>)
    requires StrictWeakOrder(keyLess)
    requires multiset(a) == multiset(Keys(s, key)) && Sorted(ByTuple(keyLess), a)
    ensures AreIndices(Indices(a), |s|) && multiset(Indices(a)) == multiset(Iota(|s|))
    ensures StableSortOf(ByKey(key, keyLess), s, Gather(s, Indices(a)))
  {
    SortedPairs(s, key, a);
    var less, ix := ByKey(key, keyLess), Indices(a);
    forall x ensures ClassIncreasing(less, x, s, ix) {
      forall i, j | 0 <= i < j < |ix| && Equivalent(less, x, s[ix[i]]) && Equivalent(less, x, s[ix[j]])
        ensures ix[i] < ix[j]
      {
        DistinctIndices(ix, |s|, i, j);
        assert !ByTuple(keyLess)(a[j], a[i]);
        assert !keyLess(a[i].key, a[j].key);
      }
    }
    GatherKeepsClasses(less, s, ix);
    GatherPermutes(s, ix);
    forall i, j | 0 <= i < j < |ix| ensures !less(s[ix[j]], s[ix[i]]) {
      assert !ByTuple(keyLess)(a[j], a[i]);
    }
  }

  lemma GatherPermutes<T>(s: seq<T>, ix: seq<nat>)
    requires AreIndices(ix, |s|) && multiset(ix) == multiset(Iota(|s|))
    ensures multiset(Gather(s, ix)) == multiset(s)
  {
    assert |multiset(ix)| == |ix|;
    if s != [] {
      var f := (i: nat) => if i < |s| then s[i] else s[0];
      MappedPermutes(f, ix, Iota(|s|));
      assert Mapped(f, ix) == Gather(s, ix) && Mapped(f, Iota(|s|)) == s;
    }
  }

  // ---- Chasing indices ----

  /** Chasing from `x` through the first `i` indices ends at `y`, going up at every hop. */
  ghost predicate Leads(ind: seq<nat>, i: nat, x: nat, y: nat)
    decreases if x < i then i - x else 0
  {
    if x >= i then x == y else x < |ind| && x < ind[x] && Leads(ind, i, ind[x], y)
  }

  /** After position `i` was swapped with `m`, what led to `i` leads to `m`, and the rest as before. */
  lemma {:induction false} LeadsOn(ind: seq<nat>, i: nat, x: nat, y: nat, m: nat)
    requires Leads(ind, i, x, y) && i < |ind| && i <= m
    ensures y != i ==> Leads(ind[i := m], i + 1, x, y)
    ensures y == i && i < m ==> Leads(ind[i := m], i + 1, x, m)
    decreases if x < i then i - x else 0
  {
    if x < i {
      LeadsOn(ind, i, ind[x], y, m);
    }
  }

  /** Where the elements of `s` are: `w` holds `s[k]` at `loc[k]`, and `at` is the inverse of `loc`. */
  ghost predicate Located<T>(s: seq<T>, w: seq<T>, loc: seq<nat>, at: seq<nat>) {
    && |s| == |w| == |loc| == |at|
    && (forall k :: 0 <= k < |s| ==> loc[k] < |s| && at[loc[k]] == k && w[loc[k]] == s[k])
    && (forall q :: 0 <= q < |s| ==> at[q] < |s| && loc[at[q]] == q)
  }

  /** The first `i` elements are in their final place, and chasing finds all the others. */
  ghost predicate Chased(p: seq<nat>, ind: seq<nat>, loc: seq<nat>, i: nat) {
    && |p| == |ind| == |loc| && i <= |p| && AreIndices(p, |p|)
    && (forall j :: 0 <= j < i ==> loc[p[j]] == j)
    && (forall j :: i <= j < |p| ==> ind[j] == p[j])
    && (forall k :: 0 <= k < |p| && loc[k] >= i ==> Leads(ind, i, k, loc[k]))
  }

  lemma SwapLocated<T>(s: seq<T>, w: seq<T>, loc: seq<nat>, at: seq<nat>, i: nat, m: nat)
    requires Located(s, w, loc, at) && i < |s| && m < |s|
    ensures Located(s, w[i := w[m]][m := w[i]],
                    loc[at[i] := m][at[m] := i], at[i := at[m]][m := at[i]])
  {
  }

  /** The next index to place has not been placed yet. */
  lemma NotPlaced<T>(s: seq<T>, w: seq<T>, p: seq<nat>, ind: seq<nat>, loc: seq<nat>, at: seq<nat>, i: nat)
    requires Located(s, w, loc, at) && |p| == |s| && multiset(p) == multiset(Iota(|p|))
    requires Chased(p, ind, loc, i) && i < |p|
    ensures i <= loc[p[i]] < |s| && Leads(ind, i, p[i], loc[p[i]])
  {
    var j := loc[p[i]];
    if j < i {
      assert at[loc[p[j]]] == p[j] && at[loc[p[i]]] == p[i];
      DistinctIndices(p, |p|, j, i);
    }
  }

  /** Swapping the next element into its place. */
  lemma SwapChased<T>(s: seq<T>, w: seq<T>, p: seq<nat>, ind: seq<nat>, loc: seq<nat>, at: seq<nat>, i: nat)
    requires Located(s, w, loc, at) && |p| == |s| && multiset(p) == multiset(Iota(|p|))
    requires Chased(p, ind, loc, i) && i < |p|
    ensures var m := loc[p[i]];
            i <= m < |s| && Chased(p, ind[i := m], loc[at[i] := m][at[m] := i], i + 1)
  {
    NotPlaced(s, w, p, ind, loc, at, i);
    var m := loc[p[i]];
    var loc' := loc[at[i] := m][at[m] := i];
    assert at[m] == p[i];
    forall k | 0 <= k < |p| && loc'[k] >= i + 1 ensures Leads(ind[i := m], i + 1, k, loc'[k]) {
      LeadsOn(ind, i, k, loc[k], m);
    }
    forall j | 0 <= j < i + 1 ensures loc'[p[j]] == j {
      if j < i {
        DistinctIndices(p, |p|, j, i);
        assert loc[p[j]] == j;
      }
    }
  }

  /** The inner loop: follows the indices until it reaches a place that is still open. */
  method Chase<K>(indices: array<Keyed<K>>, i: nat, ghost ind: seq<nat>, ghost m: nat) returns (index: nat)
    requires i < |ind| == indices.Length
    requires forall j :: 0 <= j < |ind| ==> indices[j].index == ind[j]
    requires Leads(ind, i, ind[i], m)
    ensures index == m && i <= index
  {
    index := indices[i].index;
    while index < i
      invariant Leads(ind, i, index, m)
      decreases i - index
    {
      index := indices[index].index;
    }
  }

  /** One round of the outer loop: the element that belongs at `i` is found and swapped in. */
  method PlaceNext<T, K>(v: array<T>, indices: array<Keyed<K>>, i: nat, ghost s: seq<T>, ghost p: seq<nat>,
                         ghost ind: seq<nat>, ghost loc: seq<nat>, ghost at: seq<nat>)
    returns (ghost ind': seq<nat>, ghost loc': seq<nat>, ghost at': seq<nat>)
    requires i < |p| == |s| == v.Length == indices.Length && multiset(p) == multiset(Iota(|p|))
    requires v as object != indices as object
    requires Located(s, v[..], loc, at) && Chased(p, ind, loc, i)
    requires forall j :: 0 <= j < indices.Length ==> indices[j].index == ind[j]
    modifies v, indices
    ensures Located(s, v[..], loc', at') && Chased(p, ind', loc', i + 1)
    ensures forall j :: 0 <= j < indices.Length ==> indices[j].index == ind'[j]
  {
    NotPlaced(s, v[..], p, ind, loc, at, i);
    ghost var m := loc[p[i]];
    ghost var w := v[..];
    var index := Chase(indices, i, ind, m);
    indices[i] := indices[i].(index := index);
    v[i], v[index] := v[index], v[i];
    ind', loc', at' := ind[i := m], loc[at[i] := m][at[m] := i], at[i := at[m]][m := at[i]];
    SwapLocated(s, w, loc, at, i, m);
    SwapChased(s, w, p, ind, loc, at, i);
    assert v[..] == w[i := w[m]][m := w[i]];
  }

  /** The loop that puts the slice in the order of the sorted pairs. */
  method PermuteByIndices<T, K>(v: array<T>, indices: array<Keyed<K>>)
    requires indices.Length == v.Length && v as object != indices as object
    requires AreIndices(Indices(indices[..]), v.Length)
    requires multiset(Indices(indices[..])) == multiset(Iota(v.Length))
    modifies v, indices
    ensures AreIndices(old(Indices(indices[..])), v.Length)
    ensures v[..] == Gather(old(v[..]), old(Indices(indices[..])))
  {
    ghost var p, s := Indices(indices[..]), v[..];
    ghost var ind: seq<nat>, loc: seq<nat>, at: seq<nat> := p, Iota(|p|), Iota(|p|);
    var i := 0;
    while i < v.Length
      invariant 0 <= i <= v.Length
      invariant Located(s, v[..], loc, at) && Chased(p, ind, loc, i)
      invariant forall j :: 0 <= j < indices.Length ==> indices[j].index == ind[j]
    {
      ind, loc, at := PlaceNext(v, indices, i, s, p, ind, loc, at);
      i := i + 1;
    }
    AllPlaced(s, v[..], p, ind, loc, at);
  }

  lemma AllPlaced<T>(s: seq<T>, w: seq<T>, p: seq<nat>, ind: seq<nat>, loc: seq<nat>, at: seq<nat>)
    requires Located(s, w, loc, at) && |p| == |s| && Chased(p, ind, loc, |p|)
    ensures w == Gather(s, p)
  {
    forall j | 0 <= j < |p| ensures w[j] == s[p[j]] {
      assert loc[p[j]] == j;
    }
  }

  const U8_MAX := 0xFF
  const U16_MAX := 0xFFFF
  const U32_MAX := 0xFFFF_FFFF

  /** `i as $t`, for an integer type whose largest value is `max`. */
  function Truncate(i: nat, max: nat): nat { i % (max + 1) }

  /** The key closure panicked on the last element it was called on. */
  ghost predicate KeyPanicked<T, K>(extract: (seq<T>, T) -> Option<K>, called: seq<T>) {
    called != [] && extract(called[..|called| - 1], called[|called| - 1]) == None
  }

  lemma TruncateFits(i: nat, max: nat)
    requires i <= max
    ensures Truncate(i, max) == i
  {
  }

  /** `pair` is what the closure makes of the `i`-th element, called on all those before it. */
  ghost predicate PairAt<T, K>(s: seq<T>, extract: (seq<T>, T) -> Option<K>, i: nat, pair: Keyed<K>)
    requires i < |s|
  {
    pair.index == i && extract(s[..i], s[i]) == Some(pair.key)
  }

  /** Pairs every element's key with its index, in an integer type whose largest value is `max`. The
      key closure is called once for every element, in order. */
  method CollectKeys<T, K>(s: seq<T>, extract: (seq<T>, T) -> Option<K>, max: nat)
    returns (ok: bool, pairs: seq<Keyed<K>>, called: seq<T>)
    requires |s| <= max + 1
    ensures called <= s && (ok ==> called == s) && (!ok ==> KeyPanicked(extract, called))
    ensures ok ==> |pairs| == |s| && forall i :: 0 <= i < |s| ==> PairAt(s, extract, i, pairs[i])
  {
    ok, pairs, called := true, [], [];
    for k := 0 to |s|
      invariant ok && called == s[..k] && |pairs| == k
      invariant forall i :: 0 <= i < k ==> PairAt(s, extract, i, pairs[i])
    {
      var key := extract(called, s[k]);
      called := called + [s[k]];
      if key == None {
        assert called[..k] == s[..k];
        return false, pairs, called;
      }
      TruncateFits(k, max);
      pairs := pairs + [Keyed(key.value, Truncate(k, max))];
    }
  }

  /** The body of the macro, for one index type. */
  method SortWithIndices<T(!new), K(!new)>(v: array<T>, extract: (seq<T>, T) -> Option<K>,
                                           cmp: Comparator<Keyed<K>>, max: nat,
                                           ghost key: T -> K, ghost keyLess: (K, K) -> bool)
    returns (ok: bool, called: seq<T>)
    requires v.Length <= max + 1
    modifies v, cmp
    ensures multiset(v[..]) == multiset(old(v[..]))
    ensures !ok ==> v[..] == old(v[..]) && (KeyPanicked(extract, called) || cmp.Panicked())
    ensures called <= old(v[..]) && (ok ==> called == old(v[..]))
    ensures Extracts(extract, key) && StrictWeakOrder(keyLess) && cmp.Answers(ByTuple(keyLess)) ==>
              && ok && StableSortOf(ByKey(key, keyLess), old(v[..]), v[..])
              && KeysInOrder(key, keyLess, v[..])
  {
    ghost var s := v[..];
    var pairs;
    ok, pairs, called := CollectKeys(v[..], extract, max);
    if !ok {
      return;
    }
    assert forall i :: 0 <= i < |s| ==> PairAt(s, extract, i, pairs[i]);
    assert Extracts(extract, key) ==> pairs == Keys(s, key);
    var indices := new Keyed<K>[v.Length](i requires 0 <= i < |pairs| => pairs[i]);
    assert indices[..] == pairs;
    if StrictWeakOrder(keyLess) {
      ByTupleOrders(keyLess);
    }
    ok := SortUnstable(indices, cmp, ByTuple(keyLess));
    if !ok {
      return;
    }
    PairsPermuted(indices[..], pairs, v.Length);
    GatherPermutes(s, Indices(indices[..]));
    if Extracts(extract, key) && StrictWeakOrder(keyLess) && cmp.Answers(ByTuple(keyLess)) {
      GatherSorts(s, key, keyLess, indices[..]);
    }
    PermuteByIndices(v, indices);
  }

  /** `sort_by_cached_key`, for any key closure and any order of the keys. The sizes are those of a key
      paired with an index of each type; they only decide how much memory the indices take. */
  method SortByCachedKey<T(!new), K(!new)>(v: array<T>, extract: (seq<T>, T) -> Option<K>,
                                           cmp: Comparator<Keyed<K>>,
                                           sizeU8: nat, sizeU16: nat, sizeU32: nat, sizeUsize: nat,
                                           usizeMax: nat, ghost key: T -> K, ghost keyLess: (K, K) -> bool)
    returns (ok: bool, called: seq<T>, indexMax: nat)
    requires v.Length <= usizeMax
    modifies v, cmp
    ensures multiset(v[..]) == multiset(old(v[..]))
    ensures !ok ==> v[..] == old(v[..]) && (KeyPanicked(extract, called) || cmp.Panicked())
    ensures called <= old(v[..]) && (ok && v.Length >= 2 ==> called == old(v[..]))
    ensures v.Length >= 2 ==>
              indexMax == if v.Length <= 255 && sizeU8 < sizeU16 then 255
                          else if v.Length <= 65535 && sizeU16 < sizeU32 then 65535
                          else if v.Length <= 4294967295 && sizeU32 < sizeUsize then 4294967295
                          else usizeMax
    ensures Extracts(extract, key) && StrictWeakOrder(keyLess) && cmp.Answers(ByTuple(keyLess)) ==>
              && ok && StableSortOf(ByKey(key, keyLess), old(v[..]), v[..])
              && KeysInOrder(key, keyLess, v[..])
  {
    var len := v.Length;
    if len < 2 {
      return true, [], 0;
    }
    if sizeU8 < sizeU16 && len <= U8_MAX {
      indexMax := U8_MAX;
    } else if sizeU16 < sizeU32 && len <= U16_MAX {
      indexMax := U16_MAX;
    } else if sizeU32 < sizeUsize && len <= U32_MAX {
      indexMax := U32_MAX;
    } else {
      indexMax := usizeMax;
    }
    ok, called := SortWithIndices(v, extract, cmp, indexMax, key, keyLess);
  }

  /** Caching the keys does not change the result: both sorts end with the same slice. */
  lemma CachedKeysAgree<T(!new), K(!new)>(key: T -> K, keyLess: (K, K) -> bool, s: seq<T>, a: seq<T>, b: seq<T>)
    requires StrictWeakOrder(keyLess)
    requires StableSortOf(ByKey(key, keyLess), s, a) && StableSortOf(ByKey(key, keyLess), s, b)
    ensures a == b
  {
    StableSortUnique(ByKey(key, keyLess), a, b);
  }
}
