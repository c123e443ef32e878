/**
 * Python's insertion-ordered `dict` with string keys, as a sequence of
 * (key, value) entries.  Assigning to a key that is already present keeps the
 * key at its first position and replaces the value; a new key is appended.
 * `{**a, **b}` is `PutAll(a, b)`.
 */
module PyDict {
  import opened Wrappers

  type Dict<V> = seq<(string, V)>

  predicate HasKey<V>(d: Dict<V>, k: string)
  {
    exists i :: 0 <= i < |d| && d[i].0 == k
  }

  predicate DistinctKeys<V>(d: Dict<V>)
  {
    forall i, j :: 0 <= i < j < |d| ==> d[i].0 != d[j].0
  }

  /** Position of the first entry at or after `i` with key `k`. */
  function FindFrom<V>(d: Dict<V>, k: string, i: nat): (r: Option<nat>)
    requires i <= |d|
    ensures r.Some? ==> i <= r.value < |d| && d[r.value].0 == k
    ensures r.Some? ==> forall j :: i <= j < r.value ==> d[j].0 != k
    ensures r.None? ==> forall j :: i <= j < |d| ==> d[j].0 != k
    decreases |d| - i
  {
    if i == |d| then None
    else if d[i].0 == k then Some(i)
    else FindFrom(d, k, i + 1)
  }

  /** Position of the first entry with key `k`. */
  function IndexOf<V>(d: Dict<V>, k: string): (r: Option<nat>)
    ensures r.Some? ==> r.value < |d| && d[r.value].0 == k
    ensures r.Some? ==> forall j :: 0 <= j < r.value ==> d[j].0 != k
    ensures r.None? <==> !HasKey(d, k)
  {
    FindFrom(d, k, 0)
  }

  /** `d.get(k)`. */
  function Get<V>(d: Dict<V>, k: string): (r: Option<V>)
    ensures r.Some? <==> HasKey(d, k)
  {
    match IndexOf(d, k)
    case None => None
    case Some(i) => Some(d[i].1)
  }

  /** `d[k] = v` on a dict value. */
  function Put<V>(d: Dict<V>, k: string, v: V): Dict<V>
  {
    match IndexOf(d, k)
    case Some(i) => d[i := (k, v)]
    case None => d + [(k, v)]
  }

  /**
   * Python's dict assignment: an existing key keeps its position and takes the
   * new value, a new key goes last, and no other key changes.
   */
  lemma PutFacts<V>(d: Dict<V>, k: string, v: V)
    ensures |Put(d, k, v)| == if HasKey(d, k) then |d| else |d| + 1
    ensures forall i :: 0 <= i < |d| ==> Put(d, k, v)[i].0 == d[i].0
    ensures !HasKey(d, k) ==> Put(d, k, v)[|d|] == (k, v)
    ensures Get(Put(d, k, v), k) == Some(v)
    ensures forall k' :: k' != k ==> Get(Put(d, k, v), k') == Get(d, k')
    ensures DistinctKeys(d) ==> DistinctKeys(Put(d, k, v))
  {
    var r := Put(d, k, v);
    match IndexOf(d, k)
    case Some(i) =>
      forall k' | k' != k ensures IndexOf(r, k') == IndexOf(d, k') {
        IndexOfAgree(r, d, k');
      }
      IndexOfAgree(r, d, k);
    case None =>
      forall k' | k' != k ensures IndexOf(r, k') == IndexOf(d, k') {
        IndexOfAgree(r, d, k');
      }
      IndexOfAppend(d, k, v);
  }

  /** Two dicts whose keys agree on the prefix both hold, and not after it, find `k` at the same place. */
  lemma IndexOfAgree<V>(r: Dict<V>, d: Dict<V>, k: string)
    requires |d| <= |r|
    requires forall i :: 0 <= i < |d| ==> r[i].0 == d[i].0
    requires forall i :: |d| <= i < |r| ==> r[i].0 != k
    ensures IndexOf(r, k) == IndexOf(d, k)
  {
    match IndexOf(d, k)
    case Some(i) =>
      assert r[i].0 == k;
    case None =>
      assert forall i :: 0 <= i < |r| ==> r[i].0 != k by {
        forall i | 0 <= i < |d| ensures r[i].0 != k {
          assert d[i].0 != k;
        }
      }
  }

  lemma IndexOfAppend<V>(d: Dict<V>, k: string, v: V)
    requires !HasKey(d, k)
    ensures IndexOf(d + [(k, v)], k) == Some(|d|)
  {
    assert (d + [(k, v)])[|d|].0 == k;
  }

  /** Assigns every entry of `xs` in order: `for k, v in xs: d[k] = v`. */
  function PutAll<V>(d: Dict<V>, xs: Dict<V>): Dict<V>
  {
    if xs == [] then d
    else
      var last := xs[|xs| - 1];
      Put(PutAll(d, xs[..|xs| - 1]), last.0, last.1)
  }

  /** Assigning a key the dict lacks appends it. */
  lemma PutAllAppend<V>(d: Dict<V>, k: string, v: V)
    requires !HasKey(d, k)
    ensures PutAll(d, [(k, v)]) == d + [(k, v)]
  {
    PutAllOne(d, k, v);
  }

  /** Assigning a one-pair dict is assigning that pair. */
  lemma PutAllOne<V>(d: Dict<V>, k: string, v: V)
    ensures PutAll(d, [(k, v)]) == Put(d, k, v)
  {
    assert [(k, v)][..0] == [];
  }

  /** No key after the first of a dict with distinct keys repeats the first. */
  lemma DistinctTail<V>(d: Dict<V>)
    requires d != [] && DistinctKeys(d)
    ensures forall i :: 0 <= i < |d[1..]| ==> d[1..][i].0 != d[0].0
  {
    forall i | 0 <= i < |d[1..]| ensures d[1..][i].0 != d[0].0 {
      assert d[1..][i] == d[i + 1];
    }
  }

  /** A key assigned first and never again stays first with its value. */
  lemma PutAllFreshFirst<V>(k: string, v: V, rest: Dict<V>)
    requires !HasKey(rest, k)
    ensures PutAll([], [(k, v)] + rest) != []
    ensures PutAll([], [(k, v)] + rest)[0] == (k, v)
  {
    PutAllConcat([], [(k, v)], rest);
    PutAllOne([], k, v);
    assert Put([], k, v) == [(k, v)];
    PutAllFirst([(k, v)], rest);
  }

  /** The value of the last assignment to `k` in `xs`. */
  function LastValue<V>(xs: Dict<V>, k: string): (r: Option<V>)
    ensures r.Some? <==> HasKey(xs, k)
  {
    if xs == [] then None
    else if xs[|xs| - 1].0 == k then Some(xs[|xs| - 1].1)
    else
      var r := LastValue(xs[..|xs| - 1], k);
      assert HasKey(xs, k) ==> HasKey(xs[..|xs| - 1], k) by {
        if HasKey(xs, k) {
          var i :| 0 <= i < |xs| && xs[i].0 == k;
          assert xs[..|xs| - 1][i].0 == k;
        }
      }
      r
  }

  /** Assigning `xs` then `ys` is assigning `xs + ys`. */
  lemma {:induction false} PutAllConcat<V>(d: Dict<V>, xs: Dict<V>, ys: Dict<V>)
    ensures PutAll(PutAll(d, xs), ys) == PutAll(d, xs + ys)
    decreases |ys|
  {
    if ys == [] {
      assert xs + ys == xs;
    } else {
      var n := |ys| - 1;
      PutAllConcat(d, xs, ys[..n]);
      assert (xs + ys)[..|xs + ys| - 1] == xs + ys[..n];
      assert (xs + ys)[|xs + ys| - 1] == ys[n];
    }
  }

  /** The last assignment wins; keys that `xs` never assigns keep their value. */
  lemma {:induction false} PutAllGet<V>(d: Dict<V>, xs: Dict<V>, k: string)
    ensures Get(PutAll(d, xs), k) == if HasKey(xs, k) then LastValue(xs, k) else Get(d, k)
  {
    if xs != [] {
      var n := |xs| - 1;
      PutAllGet(d, xs[..n], k);
      PutFacts(PutAll(d, xs[..n]), xs[n].0, xs[n].1);
      if xs[n].0 != k && HasKey(xs, k) {
        var i :| 0 <= i < |xs| && xs[i].0 == k;
        assert xs[..n][i].0 == k;
      }
    }
  }

  /** Keys present before keep their positions, and the dict never shrinks. */
  lemma {:induction false} PutAllKeepsPositions<V>(d: Dict<V>, xs: Dict<V>)
    ensures |d| <= |PutAll(d, xs)|
    ensures forall i :: 0 <= i < |d| ==> PutAll(d, xs)[i].0 == d[i].0
  {
    if xs != [] {
      var n := |xs| - 1;
      PutAllKeepsPositions(d, xs[..n]);
      PutFacts(PutAll(d, xs[..n]), xs[n].0, xs[n].1);
    }
  }

  /** Assigning entries with distinct keys into an empty dict gives them back unchanged. */
  lemma {:induction false} PutAllDistinct<V>(xs: Dict<V>)
    requires DistinctKeys(xs)
    ensures PutAll([], xs) == xs
  {
    if xs != [] {
      var n := |xs| - 1;
      PutAllDistinct(xs[..n]);
      assert !HasKey(xs[..n], xs[n].0);
      assert IndexOf(xs[..n], xs[n].0) == None;
      assert xs[..n] + [xs[n]] == xs;
    }
  }

  /** `PutAllGet` for every key at once. */
  lemma PutAllGetAll<V>(d: Dict<V>, xs: Dict<V>)
    ensures forall k :: Get(PutAll(d, xs), k) == if HasKey(xs, k) then LastValue(xs, k) else Get(d, k)
  {
    forall k ensures Get(PutAll(d, xs), k) == if HasKey(xs, k) then LastValue(xs, k) else Get(d, k) {
      PutAllGet(d, xs, k);
    }
  }

  /** After `{**d, **xs}` the keys are those of `d` and those of `xs`. */
  lemma PutAllHasKey<V>(d: Dict<V>, xs: Dict<V>, k: string)
    ensures HasKey(PutAll(d, xs), k) <==> HasKey(d, k) || HasKey(xs, k)
  {
    PutAllGet(d, xs, k);
  }

  /** Assignments never make a key appear twice. */
  lemma {:induction false} PutAllKeepsDistinct<V>(d: Dict<V>, xs: Dict<V>)
    requires DistinctKeys(d)
    ensures DistinctKeys(PutAll(d, xs))
  {
    if xs != [] {
      var n := |xs| - 1;
      PutAllKeepsDistinct(d, xs[..n]);
      PutFacts(PutAll(d, xs[..n]), xs[n].0, xs[n].1);
    }
  }

  /** The first entry of a dict keeps its key through any assignments, and holds the last value assigned to it. */
  lemma PutAllFirst<V>(d: Dict<V>, xs: Dict<V>)
    requires d != []
    ensures PutAll(d, xs) != []
    ensures PutAll(d, xs)[0] == (d[0].0, if HasKey(xs, d[0].0) then LastValue(xs, d[0].0).value else d[0].1)
  {
    var k := d[0].0;
    PutAllKeepsPositions(d, xs);
    PutAllGet(d, xs, k);
    assert IndexOf(d, k) == Some(0);
    assert IndexOf(PutAll(d, xs), k) == Some(0);
  }
}
