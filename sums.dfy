/** Sums used by every hour and money projection. Hours are multiples of 2.5 and amounts are
    exact decimals, so they are `real`s here and the order of addition does not matter. */
module Sums {
  import opened Lists

  /** Some key of a non-empty map. */
  ghost function Pick<K>(m: map<K, real>): (k: K)
    requires m != map[]
    ensures k in m
  {
    assert m.Keys != {};
    var k :| k in m.Keys;
    k
  }

  /** Sum of the values of a finite map, as a `for...in` loop or `Object.values(..).reduce`
      accumulates it (in whatever order the keys come). */
  ghost function SumValues<K>(m: map<K, real>): real
    decreases |m.Keys|
  {
    if m == map[] then 0.0
    else
      var k := Pick(m);
      assert (m - {k}).Keys == m.Keys - {k};
      m[k] + SumValues(m - {k})
  }

  /** The sum does not depend on which key is taken first. */
  lemma {:induction false} SumValuesRemove<K>(m: map<K, real>, k: K)
    requires k in m
    ensures SumValues(m) == m[k] + SumValues(m - {k})
    decreases |m.Keys|
  {
    var j := Pick(m);
    if j != k {
      assert (m - {j}).Keys == m.Keys - {j};
      assert k in m - {j};
      SumValuesRemove(m - {j}, k);
      assert (m - {k}).Keys == m.Keys - {k};
      assert j in m - {k};
      SumValuesRemove(m - {k}, j);
      assert m - {j} - {k} == m - {k} - {j};
    }
  }

  lemma SumValuesInsert<K>(m: map<K, real>, k: K, v: real)
    requires k !in m
    ensures SumValues(m[k := v]) == v + SumValues(m)
  {
    SumValuesRemove(m[k := v], k);
    assert m[k := v] - {k} == m;
  }

  lemma {:induction false} SumValuesNonNegative<K>(m: map<K, real>)
    requires forall k :: k in m ==> m[k] >= 0.0
    ensures SumValues(m) >= 0.0
    decreases |m.Keys|
  {
    if m != map[] {
      var k := Pick(m);
      SumValuesRemove(m, k);
      assert (m - {k}).Keys == m.Keys - {k};
      SumValuesNonNegative(m - {k});
    }
  }

  /** Keys whose value is 0 do not change the sum. */
  lemma {:induction false} SumValuesDropZeros<K>(m: map<K, real>, keep: set<K>)
    requires forall k :: k in m && k !in keep ==> m[k] == 0.0
    ensures SumValues(m) == SumValues(Restrict(m, keep))
    decreases |m.Keys|
  {
    var r := Restrict(m, keep);
    if m != map[] {
      var k := Pick(m);
      SumValuesRemove(m, k);
      assert (m - {k}).Keys == m.Keys - {k};
      SumValuesDropZeros(m - {k}, keep);
      var r' := Restrict(m - {k}, keep);
      if k in keep {
        SumValuesRemove(r, k);
        assert r - {k} == r';
      } else {
        assert r == r';
      }
    } else {
      assert r == map[];
    }
  }

  /** Sum of a list of numbers: `xs.reduce((s, x) => s + x, 0)`. */
  function SumSeq(xs: seq<real>): real
    decreases |xs|
  {
    if xs == [] then 0.0 else xs[0] + SumSeq(xs[1..])
  }

  lemma {:induction false} SumSeqAppend(xs: seq<real>, ys: seq<real>)
    ensures SumSeq(xs + ys) == SumSeq(xs) + SumSeq(ys)
    decreases |xs|
  {
    if xs != [] {
      SumSeqAppend(xs[1..], ys);
      assert (xs + ys)[1..] == xs[1..] + ys;
    } else {
      assert xs + ys == ys;
    }
  }

  lemma {:induction false} SumSeqNonNegative(xs: seq<real>)
    requires forall i :: 0 <= i < |xs| ==> xs[i] >= 0.0
    ensures SumSeq(xs) >= 0.0
    decreases |xs|
  {
    if xs != [] {
      SumSeqNonNegative(xs[1..]);
    }
  }

  /** Sum of `f` over a list of records: an accumulating `reduce` over the list. */
  function SumBy<T>(xs: seq<T>, f: T -> real): real
    decreases |xs|
  {
    if xs == [] then 0.0 else f(xs[0]) + SumBy(xs[1..], f)
  }

  lemma {:induction false} SumByAppend<T>(xs: seq<T>, ys: seq<T>, f: T -> real)
    ensures SumBy(xs + ys, f) == SumBy(xs, f) + SumBy(ys, f)
    decreases |xs|
  {
    if xs != [] {
      SumByAppend(xs[1..], ys, f);
      assert (xs + ys)[1..] == xs[1..] + ys;
    } else {
      assert xs + ys == ys;
    }
  }

  /** The map from the elements of a list to their values under `f`. */
  function ValuesOn<K>(ks: seq<K>, f: K -> real): map<K, real> {
    map k | k in ks :: f(k)
  }

  /** Summing `f` over a list without repeats is summing the map from its elements to `f`. */
  lemma {:induction false} SumByDistinct<K>(ks: seq<K>, f: K -> real)
    requires forall i, j :: 0 <= i < j < |ks| ==> ks[i] != ks[j]
    ensures SumBy(ks, f) == SumValues(ValuesOn(ks, f))
    decreases |ks|
  {
    if ks == [] {
      assert ValuesOn(ks, f) == map[];
    } else {
      SumByDistinct(ks[1..], f);
      var m := ValuesOn(ks[1..], f);
      assert ks[0] !in ks[1..];
      assert ValuesOn(ks, f) == m[ks[0] := f(ks[0])];
      SumValuesInsert(m, ks[0], f(ks[0]));
    }
  }

  /** Two lists whose elements contribute the same amounts, position by position, have the
      same sum. */
  lemma {:induction false} SumByPointwise<T, U>(xs: seq<T>, f: T -> real, ys: seq<U>, g: U -> real)
    requires |xs| == |ys| && forall i :: 0 <= i < |xs| ==> f(xs[i]) == g(ys[i])
    ensures SumBy(xs, f) == SumBy(ys, g)
    decreases |xs|
  {
    if xs != [] {
      SumByPointwise(xs[1..], f, ys[1..], g);
    }
  }

  lemma SumByRemoveAt<T>(ys: seq<T>, i: int, f: T -> real)
    requires 0 <= i < |ys|
    ensures SumBy(ys, f) == f(ys[i]) + SumBy(ys[..i] + ys[i + 1..], f)
  {
    SumByAppend(ys[..i], [ys[i]] + ys[i + 1..], f);
    SumByAppend(ys[..i], ys[i + 1..], f);
    assert ([ys[i]] + ys[i + 1..])[1..] == ys[i + 1..];
    assert ys[..i] + ([ys[i]] + ys[i + 1..]) == ys;
  }

  lemma MultisetRemoveAt<T>(xs: seq<T>, ys: seq<T>, i: int)
    requires multiset(xs) == multiset(ys) && xs != [] && 0 <= i < |ys| && ys[i] == xs[0]
    ensures multiset(xs[1..]) == multiset(ys[..i] + ys[i + 1..])
  {
    MultisetCons(xs);
    MultisetSplitAt(ys, i);
    MultisetCancel(xs[0], multiset(xs[1..]), multiset(ys[..i] + ys[i + 1..]));
  }

  lemma MultisetSplitAt<T>(ys: seq<T>, i: int)
    requires 0 <= i < |ys|
    ensures multiset(ys) == multiset{ys[i]} + multiset(ys[..i] + ys[i + 1..])
  {
    assert ys == ys[..i] + [ys[i]] + ys[i + 1..];
  }

  lemma MultisetCancel<T>(x: T, a: multiset<T>, b: multiset<T>)
    requires multiset{x} + a == multiset{x} + b
    ensures a == b
  {
    assert a == (multiset{x} + a) - multiset{x};
    assert b == (multiset{x} + b) - multiset{x};
  }

  /** Reordering a list (sorting it, say) does not change a sum over it. */
  lemma {:induction false} SumByPermutation<T>(xs: seq<T>, ys: seq<T>, f: T -> real)
    requires multiset(xs) == multiset(ys)
    ensures SumBy(xs, f) == SumBy(ys, f)
    decreases |xs|
  {
    if xs == [] {
      assert |ys| == |multiset(ys)| == 0;
    } else {
      assert xs[0] in multiset(ys);
      var i :| 0 <= i < |ys| && ys[i] == xs[0];
      MultisetRemoveAt(xs, ys, i);
      SumByPermutation(xs[1..], ys[..i] + ys[i + 1..], f);
      SumByRemoveAt(ys, i, f);
    }
  }

  /** The entries of `m` whose keys are in `keys`. */
  function Restrict<K>(m: map<K, real>, keys: set<K>): map<K, real> {
    map k | k in keys && k in m :: m[k]
  }

  /** One more key visited adds its value. */
  lemma RestrictStep<K>(m: map<K, real>, todo: set<K>, k: K)
    requires todo <= m.Keys && k in todo
    ensures SumValues(Restrict(m, m.Keys - (todo - {k}))) == SumValues(Restrict(m, m.Keys - todo)) + m[k]
  {
    var before := Restrict(m, m.Keys - todo);
    assert Restrict(m, m.Keys - (todo - {k})) == before[k := m[k]];
    SumValuesInsert(before, k, m[k]);
  }

  /** `Object.values(m).reduce((sum, v) => sum + v, 0)`. */
  method SumOfValues<K>(m: map<K, real>) returns (total: real)
    ensures total == SumValues(m)
  {
    total := 0.0;
    var todo := m.Keys;
    assert Restrict(m, m.Keys - todo) == map[];
    while todo != {}
      invariant todo <= m.Keys
      invariant total == SumValues(Restrict(m, m.Keys - todo))
      decreases |todo|
    {
      var k :| k in todo;
      RestrictStep(m, todo, k);
      total := total + m[k];
      todo := todo - {k};
    }
    assert Restrict(m, m.Keys - todo) == m;
  }
}
