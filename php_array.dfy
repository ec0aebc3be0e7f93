/**
 * A PHP array with string keys: an ordered map. Keys keep the position of
 * their first insertion; assigning to an existing key replaces its value
 * in place.
 */
module PhpArray {
  import opened Wrappers

  type OrderedMap<V> = seq<(string, V)>

  /** Concatenation regroups freely (used for lists of any element type). */
  lemma ConcatAssoc<T>(x: seq<T>, a: seq<T>, b: seq<T>)
    ensures (x + a) + b == x + (a + b)
  {
  }

  /** The lists `f` gives for the elements of `xs`, appended in the order of `xs`. */
  function FlatMap<A, B>(f: A -> seq<B>, xs: seq<A>): seq<B>
  {
    if xs == [] then [] else FlatMap(f, xs[..|xs| - 1]) + f(xs[|xs| - 1])
  }

  lemma FlatMapSnoc<A, B>(f: A -> seq<B>, xs: seq<A>, x: A)
    ensures FlatMap(f, xs + [x]) == FlatMap(f, xs) + f(x)
  {
    assert (xs + [x])[..|xs|] == xs;
  }

  lemma {:induction false} FlatMapAppend<A, B>(f: A -> seq<B>, xs: seq<A>, ys: seq<A>)
    ensures FlatMap(f, xs + ys) == FlatMap(f, xs) + FlatMap(f, ys)
    decreases |ys|
  {
    if ys == [] {
      assert xs + ys == xs;
    } else {
      var init, y := ys[..|ys| - 1], ys[|ys| - 1];
      assert ys == init + [y];
      assert xs + ys == (xs + init) + [y];
      FlatMapSnoc(f, xs + init, y);
      FlatMapAppend(f, xs, init);
      FlatMapSnoc(f, init, y);
      ConcatAssoc(FlatMap(f, xs), FlatMap(f, init), f(y));
    }
  }

  /** `array_keys`. */
  function Keys<V>(m: OrderedMap<V>): (keys: seq<string>)
    ensures |keys| == |m|
    ensures forall i :: 0 <= i < |m| ==> keys[i] == m[i].0
  {
    seq(|m|, i requires 0 <= i < |m| => m[i].0)
  }

  predicate DistinctKeys<V>(m: OrderedMap<V>)
  {
    forall i, j :: 0 <= i < j < |m| ==> m[i].0 != m[j].0
  }

  /** `m[k]`, or None when `array_key_exists(k, m)` is false. */
  function Get<V>(m: OrderedMap<V>, k: string): Option<V>
  {
    if m == [] then None
    else if m[0].0 == k then Some(m[0].1)
    else Get(m[1..], k)
  }

  /** `m[k] = v`: replaces the value in place, or appends a new key at the end. */
  function Put<V>(m: OrderedMap<V>, k: string, v: V): OrderedMap<V>
  {
    if m == [] then [(k, v)]
    else if m[0].0 == k then [(k, v)] + m[1..]
    else [m[0]] + Put(m[1..], k, v)
  }

  /** `array_key_exists` agrees with `array_keys`. */
  lemma {:induction false} GetFound<V>(m: OrderedMap<V>, k: string)
    ensures Get(m, k).Some? <==> k in Keys(m)
  {
    if m != [] {
      assert Keys(m) == [m[0].0] + Keys(m[1..]);
      GetFound(m[1..], k);
    }
  }

  /** After `m[k] = v`, key `k` holds `v` and every other key holds what it held. */
  lemma {:induction false} GetPut<V>(m: OrderedMap<V>, k: string, v: V, k': string)
    ensures Get(Put(m, k, v), k') == if k' == k then Some(v) else Get(m, k')
  {
    if m != [] && m[0].0 != k {
      GetPut(m[1..], k, v, k');
    }
  }

  /** Assignment keeps the key order: an existing key stays where it was, a new one goes last. */
  lemma {:induction false} KeysPut<V>(m: OrderedMap<V>, k: string, v: V)
    ensures Keys(Put(m, k, v)) == if k in Keys(m) then Keys(m) else Keys(m) + [k]
  {
    if m != [] {
      assert Keys(m) == [m[0].0] + Keys(m[1..]);
      if m[0].0 != k {
        KeysPut(m[1..], k, v);
        assert Keys(Put(m, k, v)) == [m[0].0] + Keys(Put(m[1..], k, v));
      } else {
        assert Keys(Put(m, k, v)) == [k] + Keys(m[1..]);
      }
    }
  }

  /** Assignment keeps the keys distinct. */
  lemma PutDistinct<V>(m: OrderedMap<V>, k: string, v: V)
    requires DistinctKeys(m)
    ensures DistinctKeys(Put(m, k, v))
  {
    var r := Put(m, k, v);
    KeysPut(m, k, v);
    forall i, j | 0 <= i < j < |r| ensures r[i].0 != r[j].0 {
      assert Keys(r)[i] == r[i].0 && Keys(r)[j] == r[j].0;
      if k !in Keys(m) && j == |m| {
        assert r[i].0 == Keys(m)[i];
      }
    }
  }

  /** With distinct keys, the value found for the i-th key is the i-th value. */
  lemma {:induction false} GetAt<V>(m: OrderedMap<V>, i: nat)
    requires DistinctKeys(m) && i < |m|
    ensures Get(m, m[i].0) == Some(m[i].1)
  {
    if i > 0 {
      assert m[0].0 != m[i].0;
      assert m[1..][i - 1] == m[i];
      GetAt(m[1..], i - 1);
    }
  }

  /** Assigning twice to one key leaves only the second value: an overwrite, not a merge. */
  lemma {:induction false} PutPut<V>(m: OrderedMap<V>, k: string, v1: V, v2: V)
    ensures Put(Put(m, k, v1), k, v2) == Put(m, k, v2)
  {
    if m != [] && m[0].0 != k {
      PutPut(m[1..], k, v1, v2);
    }
  }
}
