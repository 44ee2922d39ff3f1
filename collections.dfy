/**
 * `Object.values(Object.fromEntries(pairs))`: the idiom the generator uses three times
 * to keep one entry per key. A JavaScript object remembers the position at which a key
 * was first inserted, while a later entry with the same key overwrites the value.
 * (The keys used here are identifiers and content hashes, never array-index-like
 * strings, so the insertion order is the whole story.)
 */
module Collections {
  import opened Wrappers

  function Keys<K, V>(pairs: seq<(K, V)>): (ks: seq<K>)
    ensures |ks| == |pairs| && forall i :: 0 <= i < |pairs| ==> ks[i] == pairs[i].0
  {
    seq(|pairs|, i requires 0 <= i < |pairs| => pairs[i].0)
  }

  function Values<K, V>(pairs: seq<(K, V)>): (vs: seq<V>)
    ensures |vs| == |pairs| && forall i :: 0 <= i < |pairs| ==> vs[i] == pairs[i].1
  {
    seq(|pairs|, i requires 0 <= i < |pairs| => pairs[i].1)
  }

  predicate Distinct<T(==)>(s: seq<T>)
  {
    forall i, j :: 0 <= i < j < |s| ==> s[i] != s[j]
  }

  /** Position of the first occurrence of `k`. */
  function FirstIndex<K(==)>(ks: seq<K>, k: K): (i: nat)
    requires k in ks
    ensures i < |ks| && ks[i] == k && k !in ks[..i]
  {
    if ks[0] == k then 0 else 1 + FirstIndex(ks[1..], k)
  }

  /** Position of the last occurrence of `k`. */
  function LastIndex<K(==)>(ks: seq<K>, k: K): (i: nat)
    requires k in ks
    ensures i < |ks| && ks[i] == k && k !in ks[i + 1..]
  {
    if ks[|ks| - 1] == k then |ks| - 1 else LastIndex(ks[..|ks| - 1], k)
  }

  /** Assigning `obj[k] = v`: overwrite in place, or append a new key. */
  function Upsert<K(==), V>(entries: seq<(K, V)>, k: K, v: V): seq<(K, V)>
  {
    if k in Keys(entries) then entries[FirstIndex(Keys(entries), k) := (k, v)]
    else entries + [(k, v)]
  }

  /** `Object.fromEntries(pairs)`, as the ordered list of its entries. */
  function FromEntries<K(==), V>(pairs: seq<(K, V)>): seq<(K, V)>
  {
    if pairs == [] then []
    else
      var last := pairs[|pairs| - 1];
      Upsert(FromEntries(pairs[..|pairs| - 1]), last.0, last.1)
  }

  /** `Object.values(Object.fromEntries(xs.map(x => [key(x), x])))`. */
  function LastByKey<T, K(==)>(xs: seq<T>, key: T -> K): seq<T>
  {
    Values(FromEntries(Tag(xs, key)))
  }

  function Tag<T, K>(xs: seq<T>, key: T -> K): (pairs: seq<(K, T)>)
    ensures |pairs| == |xs| && forall i :: 0 <= i < |xs| ==> pairs[i] == (key(xs[i]), xs[i])
  {
    seq(|xs|, i requires 0 <= i < |xs| => (key(xs[i]), xs[i]))
  }

  function MapKeys<T, K>(xs: seq<T>, key: T -> K): (ks: seq<K>)
    ensures |ks| == |xs| && forall i :: 0 <= i < |xs| ==> ks[i] == key(xs[i])
  {
    seq(|xs|, i requires 0 <= i < |xs| => key(xs[i]))
  }

  lemma FirstIndexAppend<K>(ks: seq<K>, x: K, k: K)
    requires k in ks
    ensures FirstIndex(ks + [x], k) == FirstIndex(ks, k)
  {
    var i := FirstIndex(ks, k);
    assert (ks + [x])[..i] == ks[..i];
    FirstIndexUnique(ks + [x], k, i);
  }

  lemma FirstIndexUnique<K>(ks: seq<K>, k: K, i: nat)
    requires i < |ks| && ks[i] == k && k !in ks[..i]
    ensures FirstIndex(ks, k) == i
  {
    var j := FirstIndex(ks, k);
    assert forall m :: 0 <= m < i ==> ks[..i][m] == ks[m];
    assert forall m :: 0 <= m < j ==> ks[..j][m] == ks[m];
  }

  lemma LastIndexUnique<K>(ks: seq<K>, k: K, i: nat)
    requires i < |ks| && ks[i] == k && k !in ks[i + 1..]
    ensures LastIndex(ks, k) == i
  {
    var j := LastIndex(ks, k);
    assert forall m :: j < m < |ks| ==> ks[j + 1..][m - j - 1] == ks[m];
    assert forall m :: i < m < |ks| ==> ks[i + 1..][m - i - 1] == ks[m];
  }

  lemma LastIndexAppend<K>(ks: seq<K>, x: K, k: K)
    requires k in ks && k != x
    ensures LastIndex(ks + [x], k) == LastIndex(ks, k)
  {
    var i := LastIndex(ks, k);
    assert (ks + [x])[i + 1..] == ks[i + 1..] + [x];
    LastIndexUnique(ks + [x], k, i);
  }

  /** Every key of the input has an entry. */
  ghost predicate CoversKeys<K, V>(pairs: seq<(K, V)>, r: seq<(K, V)>)
  {
    forall i :: 0 <= i < |pairs| ==> pairs[i].0 in Keys(r)
  }

  /** Every entry is the last input pair with its key. */
  ghost predicate HoldsLast<K, V>(pairs: seq<(K, V)>, r: seq<(K, V)>)
  {
    forall i :: 0 <= i < |r| ==> r[i].0 in Keys(pairs) && r[i] == pairs[LastIndex(Keys(pairs), r[i].0)]
  }

  /** Entries follow the first occurrences of their keys. */
  ghost predicate InFirstOrder<K, V>(pairs: seq<(K, V)>, r: seq<(K, V)>)
  {
    forall i, j :: 0 <= i < j < |r| ==>
      r[i].0 in Keys(pairs) && r[j].0 in Keys(pairs) &&
      FirstIndex(Keys(pairs), r[i].0) < FirstIndex(Keys(pairs), r[j].0)
  }

  /** The four facts `FromEntriesSpec` states about `r`, the entries built from `pairs`. */
  ghost predicate EntriesOf<K, V>(pairs: seq<(K, V)>, r: seq<(K, V)>)
  {
    Distinct(Keys(r)) && CoversKeys(pairs, r) && HoldsLast(pairs, r) && InFirstOrder(pairs, r)
  }

  /** Adding one more pair whose key is already present overwrites that entry in place. */
  lemma UpsertExisting<K, V>(init: seq<(K, V)>, e: seq<(K, V)>, k: K, v: V)
    requires EntriesOf(init, e) && k in Keys(e)
    ensures EntriesOf(init + [(k, v)], Upsert(e, k, v))
  {
    var p := FirstIndex(Keys(e), k);
    var r := e[p := (k, v)];
    assert Upsert(e, k, v) == r;
    assert Keys(r) == Keys(e);
    assert Keys(init + [(k, v)]) == Keys(init) + [k];
    ExistingCovers(init, e, k, v, p);
    ExistingHoldsLast(init, e, k, v, p);
    ExistingInFirstOrder(init, e, k, v, p);
  }

  lemma ExistingCovers<K, V>(init: seq<(K, V)>, e: seq<(K, V)>, k: K, v: V, p: nat)
    requires CoversKeys(init, e) && p < |e| && e[p].0 == k
    ensures CoversKeys(init + [(k, v)], e[p := (k, v)])
  {
    var pairs, r := init + [(k, v)], e[p := (k, v)];
    assert Keys(r) == Keys(e);
    forall i | 0 <= i < |pairs| ensures pairs[i].0 in Keys(r) {
      if i < |init| { assert pairs[i] == init[i]; } else { assert Keys(r)[p] == k; }
    }
  }

  lemma ExistingHoldsLast<K, V>(init: seq<(K, V)>, e: seq<(K, V)>, k: K, v: V, p: nat)
    requires HoldsLast(init, e) && Distinct(Keys(e)) && p < |e| && e[p].0 == k
    ensures HoldsLast(init + [(k, v)], e[p := (k, v)])
  {
    var pairs, r := init + [(k, v)], e[p := (k, v)];
    var n := |init|;
    assert Keys(pairs) == Keys(init) + [k];
    forall k' | k' in Keys(init) && k' != k ensures LastIndex(Keys(pairs), k') == LastIndex(Keys(init), k') {
      LastIndexAppend(Keys(init), k, k');
    }
    LastIndexUnique(Keys(pairs), k, n);
    forall i | 0 <= i < |r| ensures r[i].0 in Keys(pairs) && r[i] == pairs[LastIndex(Keys(pairs), r[i].0)] {
      if i != p {
        assert Keys(e)[i] != Keys(e)[p];
        assert r[i] == e[i];
      }
    }
  }

  lemma ExistingInFirstOrder<K, V>(init: seq<(K, V)>, e: seq<(K, V)>, k: K, v: V, p: nat)
    requires InFirstOrder(init, e) && p < |e| && e[p].0 == k
    ensures InFirstOrder(init + [(k, v)], e[p := (k, v)])
  {
    var pairs, r := init + [(k, v)], e[p := (k, v)];
    assert Keys(pairs) == Keys(init) + [k];
    forall k' | k' in Keys(init) ensures FirstIndex(Keys(pairs), k') == FirstIndex(Keys(init), k') {
      FirstIndexAppend(Keys(init), k, k');
    }
    forall i | 0 <= i < |r| ensures r[i].0 == e[i].0 {
    }
  }

  /** Adding one more pair with a new key appends a new entry. */
  lemma UpsertNew<K, V>(init: seq<(K, V)>, e: seq<(K, V)>, k: K, v: V)
    requires EntriesOf(init, e) && k !in Keys(e)
    ensures EntriesOf(init + [(k, v)], Upsert(e, k, v))
  {
    assert Upsert(e, k, v) == e + [(k, v)];
    assert Keys(e + [(k, v)]) == Keys(e) + [k];
    assert Keys(init + [(k, v)]) == Keys(init) + [k];
    NewCovers(init, e, k, v);
    NewHoldsLast(init, e, k, v);
    NewInFirstOrder(init, e, k, v);
  }

  lemma NewCovers<K, V>(init: seq<(K, V)>, e: seq<(K, V)>, k: K, v: V)
    requires CoversKeys(init, e)
    ensures CoversKeys(init + [(k, v)], e + [(k, v)])
  {
    var pairs, r := init + [(k, v)], e + [(k, v)];
    assert Keys(r) == Keys(e) + [k];
    forall i | 0 <= i < |pairs| ensures pairs[i].0 in Keys(r) {
      if i < |init| { assert pairs[i] == init[i]; }
    }
  }

  lemma NewHoldsLast<K, V>(init: seq<(K, V)>, e: seq<(K, V)>, k: K, v: V)
    requires HoldsLast(init, e) && CoversKeys(init, e) && k !in Keys(e)
    ensures HoldsLast(init + [(k, v)], e + [(k, v)])
  {
    var pairs, r := init + [(k, v)], e + [(k, v)];
    var n := |init|;
    assert Keys(pairs) == Keys(init) + [k];
    assert k !in Keys(init);
    forall k' | k' in Keys(init) ensures LastIndex(Keys(pairs), k') == LastIndex(Keys(init), k') {
      LastIndexAppend(Keys(init), k, k');
    }
    LastIndexUnique(Keys(pairs), k, n);
    forall i | 0 <= i < |r| ensures r[i].0 in Keys(pairs) && r[i] == pairs[LastIndex(Keys(pairs), r[i].0)] {
      if i < |e| { assert r[i] == e[i]; }
    }
  }

  lemma NewInFirstOrder<K, V>(init: seq<(K, V)>, e: seq<(K, V)>, k: K, v: V)
    requires InFirstOrder(init, e) && HoldsLast(init, e) && CoversKeys(init, e) && k !in Keys(e)
    ensures InFirstOrder(init + [(k, v)], e + [(k, v)])
  {
    var pairs, r := init + [(k, v)], e + [(k, v)];
    var n := |init|;
    assert Keys(pairs) == Keys(init) + [k];
    assert k !in Keys(init);
    forall k' | k' in Keys(init) ensures FirstIndex(Keys(pairs), k') == FirstIndex(Keys(init), k') {
      FirstIndexAppend(Keys(init), k, k');
    }
    FirstIndexUnique(Keys(pairs), k, n);
    forall i, j | 0 <= i < j < |r|
      ensures r[i].0 in Keys(pairs) && r[j].0 in Keys(pairs) &&
              FirstIndex(Keys(pairs), r[i].0) < FirstIndex(Keys(pairs), r[j].0)
    {
      assert r[i] == e[i];
      if j < |e| { assert r[j] == e[j]; }
    }
  }

  /**
   * What `Object.values(Object.fromEntries(pairs))` keeps: one entry per key (no key
   * twice), exactly the keys of the input, each key holding the LAST value given for
   * it, and the keys in the order of their FIRST occurrence.
   */
  lemma {:induction false} FromEntriesSpec<K, V>(pairs: seq<(K, V)>)
    ensures EntriesOf(pairs, FromEntries(pairs))
  {
    if pairs != [] {
      var n := |pairs| - 1;
      var init, last := pairs[..n], pairs[n];
      FromEntriesSpec(init);
      assert pairs == init + [(last.0, last.1)];
      if last.0 in Keys(FromEntries(init)) {
        UpsertExisting(init, FromEntries(init), last.0, last.1);
      } else {
        UpsertNew(init, FromEntries(init), last.0, last.1);
      }
    }
  }

  /**
   * The same four facts for `Object.values(Object.fromEntries(xs.map(x => [key(x), x])))`,
   * stated over the elements: no two results share a key, every key of the input
   * survives, each result is the last input element with its key, and results come
   * in the order in which their keys first appeared.
   */
  lemma LastByKeySpec<T, K>(xs: seq<T>, key: T -> K)
    ensures var r := LastByKey(xs, key);
      && Distinct(MapKeys(r, key))
      && (forall i :: 0 <= i < |xs| ==> key(xs[i]) in MapKeys(r, key))
      && (forall i :: 0 <= i < |r| ==>
            key(r[i]) in MapKeys(xs, key) && r[i] == xs[LastIndex(MapKeys(xs, key), key(r[i]))])
      && (forall i, j :: 0 <= i < j < |r| ==>
            key(r[i]) in MapKeys(xs, key) && key(r[j]) in MapKeys(xs, key) &&
            FirstIndex(MapKeys(xs, key), key(r[i])) < FirstIndex(MapKeys(xs, key), key(r[j])))
  {
    var pairs := Tag(xs, key);
    FromEntriesSpec(pairs);
    var e := FromEntries(pairs);
    var r := LastByKey(xs, key);
    assert Keys(pairs) == MapKeys(xs, key);
    forall i | 0 <= i < |e| ensures e[i].0 == key(e[i].1) {
      var j := LastIndex(Keys(pairs), e[i].0);
      assert e[i] == pairs[j];
    }
    assert MapKeys(r, key) == Keys(e);
  }

  /** `xs.findIndex(p)`, with -1 as `None`. */
  function FindIndex<T>(xs: seq<T>, p: T -> bool): (r: Option<nat>)
    ensures r.None? <==> forall i :: 0 <= i < |xs| ==> !p(xs[i])
    ensures r.Some? ==> r.value < |xs| && p(xs[r.value]) && forall j :: 0 <= j < r.value ==> !p(xs[j])
  {
    if xs == [] then None
    else if p(xs[0]) then Some(0)
    else match FindIndex(xs[1..], p)
      case None => None
      case Some(i) => Some(i + 1)
  }

  /** `xs.map(f)` where `f` may throw: every result, or the first error. */
  function MapAll<T, U>(xs: seq<T>, f: T -> Result<U>): (r: Result<seq<U>>)
    ensures r.Success? <==> forall i :: 0 <= i < |xs| ==> f(xs[i]).Success?
    ensures r.Success? ==> |r.value| == |xs| && forall i :: 0 <= i < |xs| ==> r.value[i] == f(xs[i]).value
    ensures r.Failure? ==>
              exists i :: 0 <= i < |xs| && f(xs[i]).Failure? && r.error == f(xs[i]).error &&
                forall j :: 0 <= j < i ==> f(xs[j]).Success?
  {
    if xs == [] then Success([])
    else
      match f(xs[0])
      case Failure(e) => Failure(e)
      case Success(y) =>
        match MapAll(xs[1..], f)
        case Failure(e) => Failure(e)
        case Success(ys) => Success([y] + ys)
  }
  /** The first failing element decides `MapAll`'s error. */
  lemma {:induction false} MapAllFirstFailure<T, U>(xs: seq<T>, f: T -> Result<U>, k: nat)
    requires k < |xs| && f(xs[k]).Failure?
    requires forall j :: 0 <= j < k ==> f(xs[j]).Success?
    ensures MapAll(xs, f) == Failure(f(xs[k]).error)
    decreases k
  {
    if k > 0 {
      assert f(xs[0]).Success?;
      assert forall j :: 0 <= j < k - 1 ==> xs[1..][j] == xs[j + 1];
      MapAllFirstFailure(xs[1..], f, k - 1);
    }
  }
  /** Every element mapping to its counterpart makes `MapAll` the sequence of counterparts. */
  lemma {:induction false} MapAllSucceeds<T, U>(xs: seq<T>, f: T -> Result<U>, ys: seq<U>)
    requires |ys| == |xs|
    requires forall j :: 0 <= j < |xs| ==> f(xs[j]) == Success(ys[j])
    ensures MapAll(xs, f) == Success(ys)
  {
    if xs != [] {
      assert forall j :: 0 <= j < |xs| - 1 ==> xs[1..][j] == xs[j + 1] && ys[1..][j] == ys[j + 1];
      MapAllSucceeds(xs[1..], f, ys[1..]);
      assert ys == [ys[0]] + ys[1..];
    }
  }
}
