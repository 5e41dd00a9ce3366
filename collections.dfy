/** Value-level building blocks the inspector works with: insertion-ordered
    dictionaries (the behaviour of a Python `dict`), order-preserving filters
    and the maximum of a non-empty sequence of scores. */
module Collections {

  /** A dictionary that remembers the order in which its keys were first
      inserted. `keys` lists each key once, in insertion order; `values`
      holds the current value of every key. */
  datatype OrderedMap<K, V> = OrderedMap(keys: seq<K>, values: map<K, V>) {

    predicate Valid() {
      (forall i, j :: 0 <= i < j < |keys| ==> keys[i] != keys[j]) &&
      values.Keys == (set k | k in keys)
    }

    /** `d[k] = v`: an existing key keeps its position, a new key goes last. */
    function Put(k: K, v: V): (r: OrderedMap<K, V>)
      requires Valid()
      ensures r.Valid()
      ensures r.values == values[k := v]
      ensures r.keys == if k in values then keys else keys + [k]
    {
      if k in values then OrderedMap(keys, values[k := v])
      else OrderedMap(keys + [k], values[k := v])
    }
  }

  type Dict<K, V> = d: OrderedMap<K, V> | d.Valid() witness OrderedMap([], map[])

  function Empty<K, V>(): (d: Dict<K, V>)
    ensures d.keys == [] && d.values == map[]
  {
    OrderedMap([], map[])
  }

  /** A key is in a dictionary's map exactly when it is in its key list. */
  lemma KeysValues<K, V>(d: Dict<K, V>, k: K)
    ensures k in d.values <==> k in d.keys
  {
    assert k in d.values <==> k in (set k' | k' in d.keys);
  }

  /** A prefix grows by the next element. */
  lemma PrefixSnoc<T>(xs: seq<T>, prefix: seq<T>, n: nat)
    requires 0 < n <= |xs| && prefix == xs[..n - 1]
    ensures prefix + [xs[n - 1]] == xs[..n]
  {
  }

  /** A new key goes after all the others. */
  lemma PutNew<K, V>(d: Dict<K, V>, k: K, v: V)
    requires k !in d.keys
    ensures d.Put(k, v).keys == d.keys + [k]
  {
    KeysValues(d, k);
  }

  /** No key occurs before its own position. */
  lemma KeyNotBefore<K, V>(d: Dict<K, V>, i: nat)
    requires i < |d.keys|
    ensures d.keys[i] !in d.keys[..i]
  {
    forall j | 0 <= j < i
      ensures d.keys[..i][j] != d.keys[i]
    {
      assert d.keys[..i][j] == d.keys[j];
    }
  }

  /** `d.get(k, default)` */
  function Get<K, V>(m: map<K, V>, k: K, default: V): (v: V)
    ensures k in m ==> v == m[k]
    ensures k !in m ==> v == default
  {
    if k in m then m[k] else default
  }

  /** The values of a dictionary in key order, as `d.values()` lists them. */
  function Values<K, V>(d: Dict<K, V>): (vs: seq<V>)
    ensures |vs| == |d.keys|
    ensures forall i :: 0 <= i < |d.keys| ==> vs[i] == d.values[d.keys[i]]
  {
    seq(|d.keys|, i requires 0 <= i < |d.keys| => d.values[d.keys[i]])
  }

  lemma ValuesMember<K, V>(d: Dict<K, V>, v: V)
    ensures v in Values(d) <==> exists k :: k in d.values && d.values[k] == v
  {
    if v in Values(d) {
      var i :| 0 <= i < |Values(d)| && Values(d)[i] == v;
      assert d.keys[i] in d.values;
    }
    if k :| k in d.values && d.values[k] == v {
      var i :| 0 <= i < |d.keys| && d.keys[i] == k;
      assert Values(d)[i] == v;
    }
  }

  predicate Distinct<T(==)>(xs: seq<T>) {
    forall i, j :: 0 <= i < j < |xs| ==> xs[i] != xs[j]
  }

  /** The elements of `xs` that lie in `keep`, in the order of `xs`:
      the list comprehension `[x for x in xs if x in keep]`. */
  function Filter<T(==)>(xs: seq<T>, keep: set<T>): (r: seq<T>)
    ensures |r| <= |xs|
  {
    if xs == [] then []
    else Filter(xs[..|xs| - 1], keep) + (if xs[|xs| - 1] in keep then [xs[|xs| - 1]] else [])
  }

  lemma {:induction false} FilterMember<T>(xs: seq<T>, keep: set<T>, x: T)
    ensures x in Filter(xs, keep) <==> x in xs && x in keep
  {
    if xs != [] {
      var init := xs[..|xs| - 1];
      FilterMember(init, keep, x);
      assert xs == init + [xs[|xs| - 1]];
    }
  }

  lemma FilterMembers<T>(xs: seq<T>, keep: set<T>)
    ensures forall x :: x in Filter(xs, keep) <==> x in xs && x in keep
  {
    forall x ensures x in Filter(xs, keep) <==> x in xs && x in keep {
      FilterMember(xs, keep, x);
    }
  }

  /** Filtering a list without repetitions gives a list without repetitions. */
  lemma {:induction false} FilterDistinct<T>(xs: seq<T>, keep: set<T>)
    requires Distinct(xs)
    ensures Distinct(Filter(xs, keep))
  {
    if xs != [] {
      var init := xs[..|xs| - 1];
      FilterDistinct(init, keep);
      FilterMember(init, keep, xs[|xs| - 1]);
    }
  }

  lemma {:induction false} FilterNone<T>(xs: seq<T>, keep: set<T>)
    requires forall x :: x in xs ==> x !in keep
    ensures Filter(xs, keep) == []
  {
    if xs != [] {
      FilterNone(xs[..|xs| - 1], keep);
    }
  }

  /** Filtering one element more of the input appends at most that element. */
  lemma FilterSnoc<T>(xs: seq<T>, i: nat, keep: set<T>)
    requires i < |xs|
    ensures Filter(xs[..i + 1], keep) == Filter(xs[..i], keep) + (if xs[i] in keep then [xs[i]] else [])
  {
    assert xs[..i + 1][..i] == xs[..i];
  }

  /** The positions in `xs` of the elements `Filter(xs, keep)` keeps: they are
      strictly increasing, so the filter keeps the relative order of `xs`. */
  function FilterPositions<T(==)>(xs: seq<T>, keep: set<T>): (ps: seq<nat>)
    ensures |ps| == |Filter(xs, keep)|
    ensures forall k :: 0 <= k < |ps| ==> ps[k] < |xs| && xs[ps[k]] == Filter(xs, keep)[k]
    ensures forall k, l :: 0 <= k < l < |ps| ==> ps[k] < ps[l]
  {
    if xs == [] then []
    else
      var front := xs[..|xs| - 1];
      var init := FilterPositions(front, keep);
      assert Filter(xs, keep) == Filter(front, keep) + (if xs[|xs| - 1] in keep then [xs[|xs| - 1]] else []);
      assert forall k :: 0 <= k < |init| ==> xs[init[k]] == front[init[k]];
      init + (if xs[|xs| - 1] in keep then [|xs| - 1] else [])
  }

  /** Every position of `xs` holding a kept element is among the positions,
      and only such positions are: with their increase, this pins
      `Filter(xs, keep)` down as the subsequence of `xs` at those positions. */
  lemma {:induction false} FilterPositionsComplete<T>(xs: seq<T>, keep: set<T>)
    ensures forall p :: 0 <= p < |xs| ==> (p in FilterPositions(xs, keep) <==> xs[p] in keep)
  {
    if xs != [] {
      var front := xs[..|xs| - 1];
      FilterPositionsComplete(front, keep);
      var init := FilterPositions(front, keep);
      var last := if xs[|xs| - 1] in keep then [|xs| - 1] else [];
      assert FilterPositions(xs, keep) == init + last;
      assert |xs| - 1 !in init by {
        forall k | 0 <= k < |init| ensures init[k] != |xs| - 1 {
          assert init[k] < |front|;
        }
      }
      forall p | 0 <= p < |xs|
        ensures p in init + last <==> xs[p] in keep
      {
        if p < |front| {
          assert p !in last;
          assert xs[p] == front[p];
        }
      }
    }
  }

  /** `sub` lists its elements in the same relative order as `xs` does. */
  ghost predicate InOrderOf<T>(sub: seq<T>, xs: seq<T>) {
    forall k, l :: 0 <= k < l < |sub| ==>
      exists p, q :: 0 <= p < q < |xs| && xs[p] == sub[k] && xs[q] == sub[l]
  }

  lemma FilterInOrder<T>(xs: seq<T>, keep: set<T>)
    ensures InOrderOf(Filter(xs, keep), xs)
  {
    var r, ps := Filter(xs, keep), FilterPositions(xs, keep);
    forall k, l | 0 <= k < l < |r|
      ensures exists p, q :: 0 <= p < q < |xs| && xs[p] == r[k] && xs[q] == r[l]
    {
      assert xs[ps[k]] == r[k] && xs[ps[l]] == r[l];
    }
  }

  /** Filtering twice is filtering once by both conditions. */
  lemma {:induction false} FilterFilter<T>(xs: seq<T>, a: set<T>, b: set<T>)
    ensures Filter(Filter(xs, a), b) == Filter(xs, a * b)
  {
    if xs != [] {
      var init := xs[..|xs| - 1];
      var x := xs[|xs| - 1];
      FilterFilter(init, a, b);
      var fa := Filter(init, a);
      if x in a {
        assert Filter(xs, a) == fa + [x];
        assert (fa + [x])[..|fa|] == fa;
        assert Filter(fa + [x], b) == Filter(fa, b) + (if x in b then [x] else []);
      } else {
        assert Filter(xs, a) == fa;
      }
    }
  }

  /** A filter only depends on which elements of the input it keeps. */
  lemma {:induction false} FilterSameOn<T>(xs: seq<T>, a: set<T>, b: set<T>)
    requires forall x :: x in xs ==> (x in a <==> x in b)
    ensures Filter(xs, a) == Filter(xs, b)
  {
    if xs != [] {
      FilterSameOn(xs[..|xs| - 1], a, b);
    }
  }

  /** Python's `max` over a non-empty list. */
  function Max(xs: seq<real>): (m: real)
    requires xs != []
    ensures m in xs
    ensures forall x :: x in xs ==> x <= m
  {
    if |xs| == 1 then xs[0]
    else
      var init, last := xs[..|xs| - 1], xs[|xs| - 1];
      var m' := Max(init);
      assert xs == init + [last];
      assert forall x :: x in xs ==> x in init || x == last;
      if last > m' then last else m'
  }

  /** The maximum is determined by the set of elements alone. */
  lemma MaxSameElements(xs: seq<real>, ys: seq<real>)
    requires xs != [] && ys != []
    requires forall x :: x in xs ==> exists y :: y in ys && x <= y
    requires forall y :: y in ys ==> exists x :: x in xs && y <= x
    ensures Max(xs) == Max(ys)
  {
    var mx, my := Max(xs), Max(ys);
    var y :| y in ys && mx <= y;
    var x :| x in xs && my <= x;
  }
}
