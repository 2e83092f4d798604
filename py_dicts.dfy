/** Python's insertion-ordered `dict` as a sequence of key/value pairs. Iterating over a
    dict visits its pairs in sequence order; assigning to a present key keeps its place. */
module PyDicts {
  import opened Wrappers

  type Dict<K, V> = seq<(K, V)>

  /** `list(d.keys())`. */
  function Keys<K, V>(d: Dict<K, V>): (ks: seq<K>)
    ensures |ks| == |d|
    ensures forall i :: 0 <= i < |d| ==> ks[i] == d[i].0
  {
    if d == [] then [] else [d[0].0] + Keys(d[1..])
  }

  /** Every key appears once, as in a real dict. */
  ghost predicate DistinctKeys<K, V>(d: Dict<K, V>) {
    forall i, j :: 0 <= i < j < |d| ==> d[i].0 != d[j].0
  }

  /** `d.get(k)`. */
  function Get<K(==), V(==)>(d: Dict<K, V>, k: K): (r: Option<V>)
    ensures r.None? <==> k !in Keys(d)
    ensures r.Some? ==> exists i :: 0 <= i < |d| && d[i] == (k, r.value)
  {
    if d == [] then None
    else if d[0].0 == k then Some(d[0].1)
    else
      var r := Get(d[1..], k);
      assert Keys(d) == [d[0].0] + Keys(d[1..]);
      if r.Some? then
        var i :| 0 <= i < |d[1..]| && d[1..][i] == (k, r.value);
        assert d[i + 1] == (k, r.value);
        r
      else r
  }

  /** With distinct keys, the value found for a key is the one stored beside it. */
  lemma {:induction false} GetAt<K, V>(d: Dict<K, V>, i: nat)
    requires DistinctKeys(d) && i < |d|
    ensures Get(d, d[i].0) == Some(d[i].1)
  {
    if i > 0 {
      assert d[0].0 != d[i].0;
      GetAt(d[1..], i - 1);
    }
  }

  /** `d[k] = v`: replaces the value of a present key in place, else appends the pair. */
  function Put<K(==), V(==)>(d: Dict<K, V>, k: K, v: V): (r: Dict<K, V>)
    ensures Keys(r) == if k in Keys(d) then Keys(d) else Keys(d) + [k]
  {
    if d == [] then [(k, v)]
    else if d[0].0 == k then [(k, v)] + d[1..]
    else
      assert Keys(d) == [d[0].0] + Keys(d[1..]);
      [d[0]] + Put(d[1..], k, v)
  }

  /** Reading back after `d[k] = v`: `k` now gives `v`, every other key what it gave before. */
  lemma {:induction false} PutGet<K, V>(d: Dict<K, V>, k: K, v: V, k': K)
    ensures Get(Put(d, k, v), k') == if k' == k then Some(v) else Get(d, k')
  {
    if d != [] && d[0].0 != k {
      PutGet(d[1..], k, v, k');
      assert Put(d, k, v)[1..] == Put(d[1..], k, v);
    }
  }

  lemma {:induction false} PutDistinct<K, V>(d: Dict<K, V>, k: K, v: V)
    requires DistinctKeys(d)
    ensures DistinctKeys(Put(d, k, v))
  {
    var r := Put(d, k, v);
    var ks := Keys(r);
    forall i, j | 0 <= i < j < |r| ensures r[i].0 != r[j].0 {
      assert ks[i] == r[i].0 && ks[j] == r[j].0;
      if k !in Keys(d) && j == |d| {
        assert Keys(d)[i] == d[i].0;
      } else {
        assert Keys(d)[i] == d[i].0 && Keys(d)[j] == d[j].0;
      }
    }
  }

  /** `d.update(e)`: assigns every pair of `e`, in order. */
  function Update<K(==), V(==)>(d: Dict<K, V>, e: Dict<K, V>): Dict<K, V>
    decreases |e|
  {
    if e == [] then d else Update(Put(d, e[0].0, e[0].1), e[1..])
  }

  /** After `d.update(e)`, a key of `e` gives its value in `e`; any other key what it gave in `d`. */
  lemma {:induction false} UpdateGet<K, V>(d: Dict<K, V>, e: Dict<K, V>, k: K)
    requires DistinctKeys(e)
    ensures Get(Update(d, e), k) == if k in Keys(e) then Get(e, k) else Get(d, k)
    decreases |e|
  {
    if e != [] {
      UpdateGet(Put(d, e[0].0, e[0].1), e[1..], k);
      PutGet(d, e[0].0, e[0].1, k);
      assert Keys(e) == [e[0].0] + Keys(e[1..]);
      if k == e[0].0 {
        assert k !in Keys(e[1..]) by {
          forall i | 0 <= i < |e[1..]| ensures Keys(e[1..])[i] != k {
            assert e[1..][i] == e[i + 1];
          }
        }
      }
    }
  }

  lemma {:induction false} UpdateDistinct<K, V>(d: Dict<K, V>, e: Dict<K, V>)
    requires DistinctKeys(d)
    ensures DistinctKeys(Update(d, e))
    decreases |e|
  {
    if e != [] {
      PutDistinct(d, e[0].0, e[0].1);
      UpdateDistinct(Put(d, e[0].0, e[0].1), e[1..]);
    }
  }

  /** Updating twice with the same dict is the same as updating once. */
  lemma UpdateIdempotent<K, V>(d: Dict<K, V>, e: Dict<K, V>)
    requires DistinctKeys(d) && DistinctKeys(e)
    ensures Update(Update(d, e), e) == Update(d, e)
  {
    UpdateDistinct(d, e);
    forall k ensures Get(Update(Update(d, e), e), k) == Get(Update(d, e), k) {
      UpdateGet(Update(d, e), e, k);
      UpdateGet(d, e, k);
    }
    UpdateSameKeys(d, e);
    GetDetermines(Update(Update(d, e), e), Update(d, e));
  }

  /** Updating with a dict whose keys are all present already changes no key positions. */
  lemma {:induction false} UpdateSameKeys<K, V>(d: Dict<K, V>, e: Dict<K, V>)
    ensures Keys(Update(Update(d, e), e)) == Keys(Update(d, e))
  {
    UpdateKeysGrow(d, e);
    UpdateKeysPresent(Update(d, e), e);
  }

  lemma {:induction false} UpdateKeysGrow<K, V>(d: Dict<K, V>, e: Dict<K, V>)
    ensures forall i :: 0 <= i < |e| ==> e[i].0 in Keys(Update(d, e))
    ensures forall k :: k in Keys(d) ==> k in Keys(Update(d, e))
    decreases |e|
  {
    if e != [] {
      var d' := Put(d, e[0].0, e[0].1);
      UpdateKeysGrow(d', e[1..]);
      assert e[0].0 in Keys(d');
      forall i | 1 <= i < |e| ensures e[i].0 in Keys(Update(d, e)) {
        assert e[1..][i - 1] == e[i];
      }
    }
  }

  lemma {:induction false} UpdateKeysPresent<K, V>(d: Dict<K, V>, e: Dict<K, V>)
    requires forall i :: 0 <= i < |e| ==> e[i].0 in Keys(d)
    ensures Keys(Update(d, e)) == Keys(d)
    decreases |e|
  {
    if e != [] {
      var d' := Put(d, e[0].0, e[0].1);
      assert Keys(d') == Keys(d);
      forall i | 0 <= i < |e[1..]| ensures e[1..][i].0 in Keys(d') {
        assert e[1..][i] == e[i + 1];
      }
      UpdateKeysPresent(d', e[1..]);
    }
  }

  /** Two dicts with distinct keys, the same key order and the same lookups are equal. */
  lemma GetDetermines<K, V>(a: Dict<K, V>, b: Dict<K, V>)
    requires DistinctKeys(a) && DistinctKeys(b) && Keys(a) == Keys(b)
    requires forall k :: Get(a, k) == Get(b, k)
    ensures a == b
  {
    assert |a| == |b|;
    forall i | 0 <= i < |a| ensures a[i] == b[i] {
      assert Keys(a)[i] == Keys(b)[i];
      GetAt(a, i);
      GetAt(b, i);
      assert Get(a, a[i].0) == Get(b, b[i].0);
    }
  }

  /** `d[k] = v` for the pair `kv` when there is one. */
  function Assign<K(==), V(==)>(d: Dict<K, V>, kv: Option<(K, V)>): Dict<K, V> {
    match kv
    case None => d
    case Some((k, v)) => Put(d, k, v)
  }

  /** The dict built by a loop that visits `xs` in order and assigns the pair each element
      gives, skipping elements that give none. */
  function Collect<T, K(==), V(==)>(xs: seq<T>, f: T -> Option<(K, V)>): Dict<K, V> {
    if xs == [] then [] else Assign(Collect(xs[..|xs| - 1], f), f(xs[|xs| - 1]))
  }

  /** The dicts `f(x)` of the elements of `xs` merged in order: `d.update(f(x))` for each. */
  function UpdateEach<T, K(==), V(==)>(xs: seq<T>, f: T -> Dict<K, V>): Dict<K, V> {
    if xs == [] then [] else Update(UpdateEach(xs[..|xs| - 1], f), f(xs[|xs| - 1]))
  }

  /** `f(xs[j])` is the last of the merged dicts that holds key `k`. */
  predicate LastHolds<T, K(==), V(==)>(xs: seq<T>, f: T -> Dict<K, V>, k: K, j: int) {
    0 <= j < |xs| && k in Keys(f(xs[j]))
    && forall j' :: j < j' < |xs| ==> k !in Keys(f(xs[j']))
  }

  /** A dict merged after the last one holding `k`, and not holding it itself, keeps that one last. */
  lemma LastHoldsSnoc<T, K, V>(xs: seq<T>, f: T -> Dict<K, V>, k: K, j: int)
    requires xs != [] && LastHolds(xs[..|xs| - 1], f, k, j) && k !in Keys(f(xs[|xs| - 1]))
    ensures LastHolds(xs, f, k, j)
  {
    var n := |xs| - 1;
    assert xs[..n][j] == xs[j];
    forall j' | j < j' < |xs| ensures k !in Keys(f(xs[j'])) {
      if j' < n { assert xs[..n][j'] == xs[j']; }
    }
  }

  /** No merged dict holds `k` once the earlier ones and the last one do not. */
  lemma NoneHoldsSnoc<T, K, V>(init: seq<T>, x: T, f: T -> Dict<K, V>, k: K)
    requires forall j :: 0 <= j < |init| ==> k !in Keys(f(init[j]))
    requires k !in Keys(f(x))
    ensures forall j :: 0 <= j < |init + [x]| ==> k !in Keys(f((init + [x])[j]))
  {
    forall j | 0 <= j < |init + [x]| ensures k !in Keys(f((init + [x])[j])) {
      if j < |init| { assert (init + [x])[j] == init[j]; }
    }
  }

  /** A key is in the merge exactly when one of the merged dicts holds it, and its value is
      the one the LAST such dict gives. */
  lemma {:induction false} UpdateEachLastWins<T, K, V>(xs: seq<T>, f: T -> Dict<K, V>, k: K)
    requires forall i :: 0 <= i < |xs| ==> DistinctKeys(f(xs[i]))
    ensures Get(UpdateEach(xs, f), k).None? <==> forall j :: 0 <= j < |xs| ==> k !in Keys(f(xs[j]))
    ensures Get(UpdateEach(xs, f), k).Some? ==>
      exists j :: LastHolds(xs, f, k, j) && Get(UpdateEach(xs, f), k) == Get(f(xs[j]), k)
  {
    if xs != [] {
      var n := |xs| - 1;
      var init := xs[..n];
      assert forall i :: 0 <= i < n ==> init[i] == xs[i];
      UpdateEachLastWins(init, f, k);
      UpdateGet(UpdateEach(init, f), f(xs[n]), k);
      if k in Keys(f(xs[n])) {
        assert LastHolds(xs, f, k, n);
      } else if Get(UpdateEach(init, f), k).Some? {
        var j :| LastHolds(init, f, k, j) && Get(UpdateEach(init, f), k) == Get(f(init[j]), k);
        LastHoldsSnoc(xs, f, k, j);
      } else {
        NoneHoldsSnoc(init, xs[n], f, k);
        assert init + [xs[n]] == xs;
      }
    }
  }

  /** Element `x` assigns to key `k`. */
  predicate Assigns<T, K(==), V>(f: T -> Option<(K, V)>, x: T, k: K) {
    f(x).Some? && f(x).value.0 == k
  }

  /** `xs[i]` is the last element that assigns to `k`. */
  predicate LastAssigns<T, K(==), V>(xs: seq<T>, f: T -> Option<(K, V)>, k: K, i: int) {
    0 <= i < |xs| && Assigns(f, xs[i], k)
    && forall j :: i < j < |xs| ==> !Assigns(f, xs[j], k)
  }

  lemma AssignGet<K, V>(d: Dict<K, V>, kv: Option<(K, V)>, k: K)
    ensures Get(Assign(d, kv), k) == if kv.Some? && kv.value.0 == k then Some(kv.value.1) else Get(d, k)
  {
    match kv
    case None =>
    case Some((k', v)) => PutGet(d, k', v, k);
  }

  lemma CollectSnoc<T, K, V>(xs: seq<T>, x: T, f: T -> Option<(K, V)>)
    ensures Collect(xs + [x], f) == Assign(Collect(xs, f), f(x))
  {
    assert (xs + [x])[..|xs|] == xs;
  }

  lemma CollectPrefix<T, K, V>(xs: seq<T>, f: T -> Option<(K, V)>, i: nat)
    requires i < |xs|
    ensures Collect(xs[..i + 1], f) == Assign(Collect(xs[..i], f), f(xs[i]))
  {
    assert xs[..i + 1][..i] == xs[..i];
  }

  /** A key is present exactly when some element assigns to it, and its value is the one
      the LAST such element gives. */
  lemma {:induction false} CollectLastWins<T, K, V>(xs: seq<T>, f: T -> Option<(K, V)>, k: K)
    ensures Get(Collect(xs, f), k).None? <==> forall i :: 0 <= i < |xs| ==> !Assigns(f, xs[i], k)
    ensures Get(Collect(xs, f), k).Some? ==>
      exists i :: LastAssigns(xs, f, k, i) && f(xs[i]).value.1 == Get(Collect(xs, f), k).value
  {
    if xs != [] {
      var n := |xs| - 1;
      var init := xs[..n];
      CollectLastWins(init, f, k);
      AssignGet(Collect(init, f), f(xs[n]), k);
      if Assigns(f, xs[n], k) {
        assert LastAssigns(xs, f, k, n);
      } else {
        assert forall i :: 0 <= i < n ==> init[i] == xs[i];
        if Get(Collect(init, f), k).Some? {
          var i :| LastAssigns(init, f, k, i) && f(init[i]).value.1 == Get(Collect(init, f), k).value;
          assert LastAssigns(xs, f, k, i);
        }
      }
    }
  }

  lemma {:induction false} CollectDistinct<T, K, V>(xs: seq<T>, f: T -> Option<(K, V)>)
    ensures DistinctKeys(Collect(xs, f))
  {
    if xs != [] {
      CollectDistinct(xs[..|xs| - 1], f);
      match f(xs[|xs| - 1])
      case None =>
      case Some((k, v)) => PutDistinct(Collect(xs[..|xs| - 1], f), k, v);
    }
  }
}
