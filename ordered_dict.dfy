/**
 * Python's insertion-ordered `dict` as an association list: assignment to an
 * existing key replaces its value where it stands, a new key goes to the end.
 * `defaultdict(list)` appends are `Extend`.
 */
module OrderedDict {
  import opened Wrappers

  type Assoc<V> = seq<(string, V)>

  /** `list(d.keys())`. */
  function Keys<V>(d: Assoc<V>): (r: seq<string>)
    ensures |r| == |d|
    ensures forall i :: 0 <= i < |d| ==> r[i] == d[i].0
  {
    if d == [] then [] else [d[0].0] + Keys(d[1..])
  }

  lemma KeysAppend<V>(a: Assoc<V>, b: Assoc<V>)
    ensures Keys(a + b) == Keys(a) + Keys(b)
  {
    assert forall i :: 0 <= i < |a + b| ==> Keys(a + b)[i] == (Keys(a) + Keys(b))[i];
  }

  predicate DistinctKeys<V>(d: Assoc<V>) {
    forall i, j :: 0 <= i < j < |d| ==> d[i].0 != d[j].0
  }

  /** `d.get(k)`. */
  function Find<V>(d: Assoc<V>, k: string): (r: Option<V>)
    ensures r.None? <==> k !in Keys(d)
  {
    if d == [] then None else if d[0].0 == k then Some(d[0].1) else Find(d[1..], k)
  }

  /** `d.get(k, default)`. */
  function GetOr<V>(d: Assoc<V>, k: string, default: V): V {
    Find(d, k).GetOr(default)
  }

  /** `d[k] = v`: an existing key keeps its place, a new one goes last. */
  function Put<V>(d: Assoc<V>, k: string, v: V): (r: Assoc<V>)
    ensures Keys(r) == if k in Keys(d) then Keys(d) else Keys(d) + [k]
  {
    if d == [] then [(k, v)]
    else if d[0].0 == k then
      assert Keys([(k, v)] + d[1..]) == Keys(d);
      [(k, v)] + d[1..]
    else
      var t := Put(d[1..], k, v);
      assert Keys([d[0]] + t) == [d[0].0] + Keys(t);
      [d[0]] + t
  }

  /** After `d[k] = v`, `k` maps to `v` and every other key to what it mapped to before. */
  lemma {:induction false} PutFind<V>(d: Assoc<V>, k: string, v: V, j: string)
    ensures Find(Put(d, k, v), j) == if j == k then Some(v) else Find(d, j)
  {
    if d != [] && d[0].0 != k {
      PutFind(d[1..], k, v, j);
    }
  }

  /** Assignment never duplicates a key. */
  lemma PutDistinct<V>(d: Assoc<V>, k: string, v: V)
    requires DistinctKeys(d)
    ensures DistinctKeys(Put(d, k, v))
  {
    var r := Put(d, k, v);
    assert forall i :: 0 <= i < |r| ==> r[i].0 == Keys(r)[i];
    assert forall i :: 0 <= i < |d| ==> d[i].0 == Keys(d)[i];
  }

  /** `d[k].extend(vs)` on a `defaultdict(list)`: the key is created when absent. */
  function Extend<T>(d: Assoc<seq<T>>, k: string, vs: seq<T>): (r: Assoc<seq<T>>)
    ensures Keys(r) == if k in Keys(d) then Keys(d) else Keys(d) + [k]
  {
    Put(d, k, GetOr(d, k, []) + vs)
  }

  /**
   * `for k, vs in src: d[k].extend(vs)`, one source entry after another.
   * Defined on the last entry so that a loop over `src` can keep it as its invariant.
   */
  function ExtendAll<T>(d: Assoc<seq<T>>, src: seq<(string, seq<T>)>): Assoc<seq<T>>
    decreases |src|
  {
    if src == [] then d
    else
      var n := |src| - 1;
      Extend(ExtendAll(d, src[..n]), src[n].0, src[n].1)
  }

  /** One more source entry is one more `extend`. */
  lemma ExtendAllSnoc<T>(d: Assoc<seq<T>>, src: seq<(string, seq<T>)>, e: (string, seq<T>))
    ensures ExtendAll(d, src + [e]) == Extend(ExtendAll(d, src), e.0, e.1)
  {
    assert (src + [e])[..|src|] == src;
  }

  /** The step a loop over `src` takes at index `i`. */
  lemma ExtendAllPrefix<T>(d: Assoc<seq<T>>, src: seq<(string, seq<T>)>, i: nat)
    requires i < |src|
    ensures ExtendAll(d, src[..i + 1]) == Extend(ExtendAll(d, src[..i]), src[i].0, src[i].1)
  {
    assert src[..i + 1] == src[..i] + [src[i]];
    ExtendAllSnoc(d, src[..i], src[i]);
  }

  /** The lists a sequence of `(key, list)` pairs gives key `k`, concatenated in order. */
  function Collected<T>(src: seq<(string, seq<T>)>, k: string): seq<T>
    decreases |src|
  {
    if src == [] then []
    else
      var n := |src| - 1;
      Collected(src[..n], k) + (if src[n].0 == k then src[n].1 else [])
  }

  /** Collecting from `a + b` is collecting from `a`, then from `b`. */
  lemma {:induction false} CollectedAppend<T>(a: seq<(string, seq<T>)>, b: seq<(string, seq<T>)>, k: string)
    ensures Collected(a + b, k) == Collected(a, k) + Collected(b, k)
    decreases |b|
  {
    if b == [] {
      assert a + b == a;
    } else {
      var n := |b| - 1;
      assert (a + b)[..|a + b| - 1] == a + b[..n];
      CollectedAppend(a, b[..n], k);
    }
  }

  /** What `ExtendAll` gives a key: its old list followed by everything the source lists for it. */
  lemma {:induction false} ExtendAllFind<T>(d: Assoc<seq<T>>, src: seq<(string, seq<T>)>, k: string)
    ensures GetOr(ExtendAll(d, src), k, []) == GetOr(d, k, []) + Collected(src, k)
    decreases |src|
  {
    if src != [] {
      var n := |src| - 1;
      ExtendAllFind(d, src[..n], k);
      var e := ExtendAll(d, src[..n]);
      PutFind(e, src[n].0, GetOr(e, src[n].0, []) + src[n].1, k);
    }
  }

  lemma KeysLastHas<V>(d: Assoc<V>, k: string)
    requires d != []
    ensures k in Keys(d) <==> k in Keys(d[..|d| - 1]) || k == d[|d| - 1].0
  {
    var n := |d| - 1;
    assert d == d[..n] + [d[n]];
    KeysAppend(d[..n], [d[n]]);
  }

  lemma ExtendHasKey<T>(d: Assoc<seq<T>>, k0: string, vs: seq<T>, k: string)
    ensures k in Keys(Extend(d, k0, vs)) <==> k in Keys(d) || k == k0
  {
  }

  lemma KeysSnocHas<V>(p: Assoc<V>, e: (string, V), k: string)
    ensures k in Keys(p + [e]) <==> k in Keys(p) || k == e.0
  {
    KeysAppend(p, [e]);
  }

  /** The keys of `ExtendAll`: the old ones and every key the source mentions, and no other. */
  lemma {:induction false} ExtendAllHasKey<T>(d: Assoc<seq<T>>, src: seq<(string, seq<T>)>, k: string)
    ensures k in Keys(ExtendAll(d, src)) <==> k in Keys(d) || k in Keys(src)
    decreases |src|
  {
    if src != [] {
      var n := |src| - 1;
      ExtendAllHasKey(d, src[..n], k);
      KeysLastHas(src, k);
      ExtendHasKey(ExtendAll(d, src[..n]), src[n].0, src[n].1, k);
    }
  }

  /** Extending a dict with distinct keys keeps them distinct. */
  lemma {:induction false} ExtendAllDistinct<T>(d: Assoc<seq<T>>, src: seq<(string, seq<T>)>)
    requires DistinctKeys(d)
    ensures DistinctKeys(ExtendAll(d, src))
    decreases |src|
  {
    if src != [] {
      var n := |src| - 1;
      ExtendAllDistinct(d, src[..n]);
      var e := ExtendAll(d, src[..n]);
      PutDistinct(e, src[n].0, GetOr(e, src[n].0, []) + src[n].1);
    }
  }

  /** Extending by `a` and then by `b` is extending by `a + b`. */
  lemma {:induction false} ExtendAllAppend<T>(d: Assoc<seq<T>>, a: seq<(string, seq<T>)>, b: seq<(string, seq<T>)>)
    ensures ExtendAll(d, a + b) == ExtendAll(ExtendAll(d, a), b)
    decreases |b|
  {
    if b == [] {
      assert a + b == a;
    } else {
      var n := |b| - 1;
      assert (a + b)[..|a + b| - 1] == a + b[..n];
      ExtendAllAppend(d, a, b[..n]);
    }
  }

  /** Looking up in `p + [e]`: `p` first, then `e`. */
  lemma {:induction false} FindAppend<V>(p: Assoc<V>, e: (string, V), k: string)
    ensures Find(p + [e], k) == if k in Keys(p) then Find(p, k) else if k == e.0 then Some(e.1) else None
  {
    if p != [] {
      assert (p + [e])[1..] == p[1..] + [e];
      FindAppend(p[1..], e, k);
    }
  }

  /** A dict with distinct keys lists each key once, so collecting it is looking the key up. */
  lemma {:induction false} CollectedDistinct<T>(d: Assoc<seq<T>>, k: string)
    requires DistinctKeys(d)
    ensures Collected(d, k) == GetOr(d, k, [])
    decreases |d|
  {
    if d != [] {
      var n := |d| - 1;
      var p := d[..n];
      assert DistinctKeys(p);
      CollectedDistinct(p, k);
      assert d == p + [d[n]];
      FindAppend(p, d[n], k);
      if d[n].0 == k {
        assert k !in Keys(p);
      }
    }
  }

  /** Where a found key sits in a dict: the one entry with that key. */
  lemma {:induction false} FindIndex<V>(d: Assoc<V>, k: string) returns (j: nat)
    requires DistinctKeys(d) && Find(d, k).Some?
    ensures j < |d| && d[j].0 == k && Find(d, k) == Some(d[j].1)
    ensures forall i :: 0 <= i < |d| && d[i].0 == k ==> i == j
    decreases |d|
  {
    if d[0].0 == k {
      j := 0;
    } else {
      assert DistinctKeys(d[1..]);
      var j' := FindIndex(d[1..], k);
      j := j' + 1;
    }
  }
}
