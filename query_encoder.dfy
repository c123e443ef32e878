/**
 * `to_query`: flattens a nested dict into bracket-path pairs and writes them
 * with `urlencode`.  A dict child `k` of the key `p` is written at `p[k]`, a
 * list element `i` at `p[i]`, booleans as `true`/`false`.  The two copies of
 * the function differ only in what a `None` becomes, which is `NullPolicy`.
 */
module QueryEncoder {
  import opened Wrappers
  import opened Text
  import PyDict
  import opened FormEncoding
  import opened JsonValue
  import opened Sorting
  import opened Lists

  datatype NullPolicy =
    | OmitNull      // flyyer/flyyer.py: a `None` leaf writes nothing
    | EmptyForNull  // flayyer/flayyer.py: a `None` leaf writes `key=`

  /** `"{}[{}]".format(parent, name)`. */
  function ChildKey(parent: string, name: string): string
  {
    parent + "[" + name + "]"
  }

  /** What `_encode_params` writes for `v` itself, before looking at children. */
  function LeafText(v: Value, policy: NullPolicy): Option<string>
  {
    match v
    case Null => if policy == OmitNull then None else Some("")
    case Bool(b) => Some(if b then "true" else "false")
    case Str(s) => Some(s)
    case Num(n) => Some(IntText(n))
    case Dict(_) => None
    case List(_) => None
  }

  function LeafPairs(v: Value, key: string, policy: NullPolicy): seq<(string, string)>
  {
    match LeafText(v, policy)
    case None => []
    case Some(t) => [(key, t)]
  }

  /** The local `encode_params` of `_encode_params`: each child with its bracketed key. */
  function Children(v: Value, key: string): (cs: seq<(string, Value)>)
    ensures forall i :: 0 <= i < |cs| ==> cs[i].1 < v
    ensures v.Dict? ==> |cs| == |v.entries|
    ensures v.Dict? ==> forall i :: 0 <= i < |cs| ==> cs[i] == (ChildKey(key, v.entries[i].0), v.entries[i].1)
    ensures v.List? ==> |cs| == |v.items|
    ensures v.List? ==> forall i :: 0 <= i < |cs| ==> cs[i] == (ChildKey(key, NatText(i)), v.items[i])
    ensures !v.Dict? && !v.List? ==> cs == []
  {
    match v
    case Dict(es) => seq(|es|, i requires 0 <= i < |es| => (ChildKey(key, es[i].0), es[i].1))
    case List(vs) => seq(|vs|, i requires 0 <= i < |vs| => (ChildKey(key, NatText(i)), vs[i]))
    case _ => []
  }

  /** Every assignment `_encode_params(v, key)` makes to `g_encode_params`, in the order it makes them. */
  function Flatten(v: Value, key: string, policy: NullPolicy): seq<(string, string)>
    decreases v, 1
  {
    LeafPairs(v, key, policy) + FlattenAll(Children(v, key), policy, v)
  }

  /** The assignments made for each (key, child) in turn. */
  function FlattenAll(cs: seq<(string, Value)>, policy: NullPolicy, ghost parent: Value): seq<(string, string)>
    requires forall i :: 0 <= i < |cs| ==> cs[i].1 < parent
    decreases parent, 0, |cs|
  {
    if cs == [] then []
    else
      var n := |cs| - 1;
      FlattenAll(cs[..n], policy, parent) + Flatten(cs[n].1, cs[n].0, policy)
  }

  /** The dict `to_query` hands to `urlencode`: only a dict argument is flattened. */
  function QueryPairs(params: Value, policy: NullPolicy): seq<(string, string)>
  {
    if params.Dict? then PyDict.PutAll([], FlattenAll(params.entries, policy, params)) else []
  }

  /**
   * The string `to_query(params)` returns: `""` for anything but a dict, and
   * otherwise `quote_plus` output joined by `=` and `&`.
   */
  function QueryString(params: Value, policy: NullPolicy): (q: string)
    ensures forall c :: c in q ==> QueryChar(c)
    ensures !params.Dict? ==> q == ""
  {
    UrlEncode(QueryPairs(params, policy))
  }

  /** `g_encode_params`: the dict that `_encode_params` fills in place. */
  class QueryAccumulator {
    var entries: seq<(string, string)>

    constructor ()
      ensures entries == []
    {
      entries := [];
    }

    /** `g_encode_params[k] = v`. */
    method Put(k: string, v: string)
      modifies this
      ensures entries == PyDict.Put(old(entries), k, v)
    {
      entries := PyDict.Put(entries, k, v);
    }
  }

  /** `_encode_params(v, key)`: writes the leaf, collects the children, then recurses into each. */
  method EncodeParams(acc: QueryAccumulator, v: Value, key: string, policy: NullPolicy)
    modifies acc
    ensures acc.entries == PyDict.PutAll(old(acc.entries), Flatten(v, key, policy))
    decreases v, 1
  {
    ghost var start := acc.entries;
    var children := EncodeNode(acc, v, key, policy);
    EncodeChildren(acc, children, policy, v);
    FlattenSplit(v, key, policy, start);
  }

  /** `for key in encode_params: _encode_params(encode_params[key], key)`. */
  method EncodeChildren(acc: QueryAccumulator, children: seq<(string, Value)>, policy: NullPolicy, ghost parent: Value)
    requires forall i :: 0 <= i < |children| ==> children[i].1 < parent
    modifies acc
    ensures acc.entries == PyDict.PutAll(old(acc.entries), FlattenAll(children, policy, parent))
    decreases parent, 0
  {
    ghost var base := acc.entries;
    assert children[..0] == [];
    var j := 0;
    while j < |children|
      invariant 0 <= j <= |children|
      invariant acc.entries == PyDict.PutAll(base, FlattenAll(children[..j], policy, parent))
    {
      EncodeParams(acc, children[j].1, children[j].0, policy);
      StepPutAll(base, children, j, policy, parent);
      j := j + 1;
    }
    assert children[..j] == children;
  }

  /** `Flatten` is the leaf followed by the children. */
  lemma FlattenSplit(v: Value, key: string, policy: NullPolicy, start: seq<(string, string)>)
    ensures PyDict.PutAll(PyDict.PutAll(start, LeafPairs(v, key, policy)), FlattenAll(Children(v, key), policy, v))
         == PyDict.PutAll(start, Flatten(v, key, policy))
  {
    PyDict.PutAllConcat(start, LeafPairs(v, key, policy), FlattenAll(Children(v, key), policy, v));
  }

  /**
   * The branches of `_encode_params` on the type of `v`: a `None`, boolean or
   * scalar is written to `acc`; a dict or list has its children collected.
   */
  method EncodeNode(acc: QueryAccumulator, v: Value, key: string, policy: NullPolicy)
    returns (children: seq<(string, Value)>)
    modifies acc
    ensures children == Children(v, key)
    ensures acc.entries == PyDict.PutAll(old(acc.entries), LeafPairs(v, key, policy))
  {
    children := [];
    match v {
      case Null =>
        if policy == EmptyForNull {
          PyDict.PutAllOne(acc.entries, key, "");
          acc.Put(key, "");
        }
      case Dict(es) =>
        children := DictChildren(es, key);
      case List(vs) =>
        children := ListChildren(vs, key);
      case Bool(b) =>
        PyDict.PutAllOne(acc.entries, key, if b then "true" else "false");
        acc.Put(key, if b then "true" else "false");
      case Str(s) =>
        PyDict.PutAllOne(acc.entries, key, s);
        acc.Put(key, s);
      case Num(n) =>
        PyDict.PutAllOne(acc.entries, key, IntText(n));
        acc.Put(key, IntText(n));
    }
  }

  /** `for key in params: encode_params["{}[{}]".format(p_key, key)] = params[key]`. */
  method DictChildren(es: seq<(string, Value)>, key: string) returns (children: seq<(string, Value)>)
    ensures children == Children(Dict(es), key)
  {
    children := [];
    var i := 0;
    while i < |es|
      invariant 0 <= i <= |es| && |children| == i
      invariant forall k :: 0 <= k < i ==> children[k] == (ChildKey(key, es[k].0), es[k].1)
    {
      children := children + [(ChildKey(key, es[i].0), es[i].1)];
      i := i + 1;
    }
  }

  /** `for offset, value in enumerate(params): encode_params["{}[{}]".format(p_key, offset)] = value`. */
  method ListChildren(vs: seq<Value>, key: string) returns (children: seq<(string, Value)>)
    ensures children == Children(List(vs), key)
  {
    children := [];
    var offset := 0;
    while offset < |vs|
      invariant 0 <= offset <= |vs| && |children| == offset
      invariant forall k :: 0 <= k < offset ==> children[k] == (ChildKey(key, NatText(k)), vs[k])
    {
      children := children + [(ChildKey(key, NatText(offset)), vs[offset])];
      offset := offset + 1;
    }
  }

  /** Unfolds `FlattenAll` by one child and regroups the assignments. */
  lemma StepPutAll(base: seq<(string, string)>, cs: seq<(string, Value)>, j: nat, policy: NullPolicy, parent: Value)
    requires j < |cs|
    requires forall i :: 0 <= i < |cs| ==> cs[i].1 < parent
    ensures PyDict.PutAll(PyDict.PutAll(base, FlattenAll(cs[..j], policy, parent)), Flatten(cs[j].1, cs[j].0, policy))
         == PyDict.PutAll(base, FlattenAll(cs[..j + 1], policy, parent))
  {
    FlattenAllSnoc(cs, j, policy, parent);
    PyDict.PutAllConcat(base, FlattenAll(cs[..j], policy, parent), Flatten(cs[j].1, cs[j].0, policy));
  }

  lemma FlattenAllSnoc(cs: seq<(string, Value)>, j: nat, policy: NullPolicy, parent: Value)
    requires j < |cs|
    requires forall i :: 0 <= i < |cs| ==> cs[i].1 < parent
    ensures FlattenAll(cs[..j + 1], policy, parent) == FlattenAll(cs[..j], policy, parent) + Flatten(cs[j].1, cs[j].0, policy)
  {
    SplitAt(cs, j);
  }

  /** `to_query(params)`. */
  method ToQuery(params: Value, policy: NullPolicy) returns (q: string)
    ensures q == QueryString(params, policy)
    ensures !params.Dict? ==> q == ""
  {
    var acc := new QueryAccumulator();
    if params.Dict? {
      var es := params.entries;
      var i := 0;
      while i < |es|
        invariant 0 <= i <= |es|
        invariant acc.entries == PyDict.PutAll([], FlattenAll(es[..i], policy, params))
      {
        EncodeParams(acc, es[i].1, es[i].0, policy);
        StepPutAll([], es, i, policy, params);
        i := i + 1;
      }
      assert es[..i] == es;
    }
    q := UrlEncode(acc.entries);
  }

  /**
   * Follows `route` down from `v`, whose key is `key`: each step picks a child
   * by position (a dict entry or a list element) and extends the key with its
   * bracketed name.  Gives the key reached and the value found there.
   */
  function Descend(v: Value, key: string, route: seq<nat>): Option<(string, Value)>
    decreases |route|
  {
    if route == [] then Some((key, v))
    else
      var cs := Children(v, key);
      if route[0] < |cs| then Descend(cs[route[0]].1, cs[route[0]].0, route[1..]) else None
  }

  /** The leaf reached by `route` writes exactly the pair `p`. */
  predicate EmitsAt(v: Value, key: string, policy: NullPolicy, route: seq<nat>, p: (string, string))
  {
    match Descend(v, key, route)
    case None => false
    case Some(leaf) => leaf.0 == p.0 && LeafText(leaf.1, policy) == Some(p.1)
  }

  /** A pair written for some child is among the pairs written for all of them. */
  lemma FlattenAllHas(cs: seq<(string, Value)>, policy: NullPolicy, parent: Value, i: nat, p: (string, string))
    requires forall i :: 0 <= i < |cs| ==> cs[i].1 < parent
    requires i < |cs| && p in Flatten(cs[i].1, cs[i].0, policy)
    ensures p in FlattenAll(cs, policy, parent)
  {
    FlattenAllMap(cs, policy, parent);
    assert p in FlattenEntry(policy)(cs[i]);
    ConcatMapHas(FlattenEntry(policy), cs, i, p);
  }

  /** A pair among those written for all children was written for one of them. */
  lemma FlattenAllFrom(cs: seq<(string, Value)>, policy: NullPolicy, parent: Value, p: (string, string))
    returns (i: nat)
    requires forall i :: 0 <= i < |cs| ==> cs[i].1 < parent
    requires p in FlattenAll(cs, policy, parent)
    ensures i < |cs| && p in Flatten(cs[i].1, cs[i].0, policy)
  {
    FlattenAllMap(cs, policy, parent);
    i := ConcatMapFrom(FlattenEntry(policy), cs, p);
    assert FlattenEntry(policy)(cs[i]) == Flatten(cs[i].1, cs[i].0, policy);
  }

  /** Every pair `_encode_params(v, key)` writes comes from a leaf of `v`, at that leaf's bracket path. */
  lemma {:induction false} FlattenSound(v: Value, key: string, policy: NullPolicy, p: (string, string))
    requires p in Flatten(v, key, policy)
    ensures exists route :: EmitsAt(v, key, policy, route, p)
    decreases v
  {
    if p in LeafPairs(v, key, policy) {
      assert EmitsAt(v, key, policy, [], p);
    } else {
      var cs := Children(v, key);
      var i := FlattenAllFrom(cs, policy, v, p);
      FlattenSound(cs[i].1, cs[i].0, policy, p);
      var r :| EmitsAt(cs[i].1, cs[i].0, policy, r, p);
      assert ([i] + r)[1..] == r;
      assert Descend(v, key, [i] + r) == Descend(cs[i].1, cs[i].0, r);
      assert EmitsAt(v, key, policy, [i] + r, p);
    }
  }

  /**
   * Every leaf of `v` that writes something is written, at its bracket path:
   * booleans as `true`/`false`, integers in decimal, and `None` as an empty
   * value under `EmptyForNull` (under `OmitNull` a `None` writes nothing, so
   * no route to it satisfies `EmitsAt`).
   */
  lemma {:induction false} FlattenComplete(v: Value, key: string, policy: NullPolicy, route: seq<nat>, p: (string, string))
    requires EmitsAt(v, key, policy, route, p)
    ensures p in Flatten(v, key, policy)
    decreases |route|
  {
    if route != [] {
      var cs := Children(v, key);
      var i := route[0];
      FlattenComplete(cs[i].1, cs[i].0, policy, route[1..], p);
      FlattenAllHas(cs, policy, v, i, p);
    }
  }

  /**
   * `r1` comes before `r2` in depth-first order: at the first position where
   * they differ, `r1` picks the earlier child.
   */
  predicate RouteBefore(r1: seq<nat>, r2: seq<nat>)
  {
    |r1| > 0 && |r2| > 0 && (r1[0] < r2[0] || (r1[0] == r2[0] && RouteBefore(r1[1..], r2[1..])))
  }

  /** `p1` occurs in `s` at an earlier position than `p2`. */
  predicate WrittenBefore(s: seq<(string, string)>, p1: (string, string), p2: (string, string))
  {
    exists i, j :: 0 <= i < j < |s| && s[i] == p1 && s[j] == p2
  }

  /**
   * `_encode_params` writes the leaves depth-first, children in order: when
   * the route to one leaf comes before the route to another, the first
   * leaf's pair is written at an earlier position than the second's.
   */
  lemma {:induction false} FlattenOrder(v: Value, key: string, policy: NullPolicy,
                                        r1: seq<nat>, p1: (string, string), r2: seq<nat>, p2: (string, string))
    requires EmitsAt(v, key, policy, r1, p1) && EmitsAt(v, key, policy, r2, p2)
    requires RouteBefore(r1, r2)
    ensures WrittenBefore(Flatten(v, key, policy), p1, p2)
    decreases |r1|
  {
    var cs := Children(v, key);
    var a, b := r1[0], r2[0];
    EmitsAtChild(v, key, policy, r1, p1);
    EmitsAtChild(v, key, policy, r2, p2);
    FlattenContainer(v, key, policy);
    var all := FlattenAll(cs, policy, v);
    var front := FlattenAll(cs[..a], policy, v);
    var fa := Flatten(cs[a].1, cs[a].0, policy);
    ChildPrefix(cs, policy, v, a);
    if a < b {
      FlattenComplete(cs[a].1, cs[a].0, policy, r1[1..], p1);
      FlattenComplete(cs[b].1, cs[b].0, policy, r2[1..], p2);
      var mid := FlattenAll(cs[..b], policy, v);
      var fb := Flatten(cs[b].1, cs[b].0, policy);
      FlattenAllPrefix(cs, policy, v, a + 1, b);
      FlattenAllSnoc(cs, a, policy, v);
      ChildPrefix(cs, policy, v, b);
      WrittenBeforeApart(front, fa, mid, fb, all, p1, p2);
    } else {
      FlattenOrder(cs[a].1, cs[a].0, policy, r1[1..], p1, r2[1..], p2);
      WrittenBeforeShift(front, fa, all, p1, p2);
    }
  }

  /** A route that reaches a leaf starts at a child of a dict or list, and goes on from that child. */
  lemma EmitsAtChild(v: Value, key: string, policy: NullPolicy, r: seq<nat>, p: (string, string))
    requires EmitsAt(v, key, policy, r, p) && |r| > 0
    ensures v.Dict? || v.List?
    ensures r[0] < |Children(v, key)|
    ensures EmitsAt(Children(v, key)[r[0]].1, Children(v, key)[r[0]].0, policy, r[1..], p)
  {
  }

  /** A dict or list writes nothing itself: only its children write. */
  lemma FlattenContainer(v: Value, key: string, policy: NullPolicy)
    requires v.Dict? || v.List?
    ensures Flatten(v, key, policy) == FlattenAll(Children(v, key), policy, v)
  {
  }

  /** What the children before `a` write, then what child `a` writes, begins what all of them write. */
  lemma ChildPrefix(cs: seq<(string, Value)>, policy: NullPolicy, parent: Value, a: nat)
    requires a < |cs|
    requires forall i :: 0 <= i < |cs| ==> cs[i].1 < parent
    ensures FlattenAll(cs[..a], policy, parent) + Flatten(cs[a].1, cs[a].0, policy) <= FlattenAll(cs, policy, parent)
  {
    FlattenAllSnoc(cs, a, policy, parent);
    FlattenAllPrefix(cs, policy, parent, a + 1, |cs|);
    assert cs[..|cs|] == cs;
  }

  lemma WrittenBeforeShift(front: seq<(string, string)>, s: seq<(string, string)>, all: seq<(string, string)>,
                           p1: (string, string), p2: (string, string))
    requires WrittenBefore(s, p1, p2) && front + s <= all
    ensures WrittenBefore(all, p1, p2)
  {
    var x, y :| 0 <= x < y < |s| && s[x] == p1 && s[y] == p2;
    assert all[|front| + x] == (front + s)[|front| + x];
    assert all[|front| + y] == (front + s)[|front| + y];
  }

  lemma WrittenBeforeApart(front: seq<(string, string)>, s: seq<(string, string)>,
                           mid: seq<(string, string)>, t: seq<(string, string)>, all: seq<(string, string)>,
                           p1: (string, string), p2: (string, string))
    requires p1 in s && p2 in t
    requires front + s <= mid && mid + t <= all
    ensures WrittenBefore(all, p1, p2)
  {
    var x :| 0 <= x < |s| && s[x] == p1;
    var y :| 0 <= y < |t| && t[y] == p2;
    assert all[|front| + x] == (front + s)[|front| + x] == mid[|front| + x];
    assert all[|mid| + y] == (mid + t)[|mid| + y];
  }

  /** What the first `m` children write is a prefix of what the first `n` write, for `m <= n`. */
  lemma {:induction false} FlattenAllPrefix(cs: seq<(string, Value)>, policy: NullPolicy, parent: Value, m: nat, n: nat)
    requires m <= n <= |cs|
    requires forall i :: 0 <= i < |cs| ==> cs[i].1 < parent
    ensures FlattenAll(cs[..m], policy, parent) <= FlattenAll(cs[..n], policy, parent)
    decreases n - m
  {
    if m < n {
      FlattenAllPrefix(cs, policy, parent, m, n - 1);
      FlattenAllSnoc(cs, n - 1, policy, parent);
    }
  }

  /** A value with no `None` anywhere in it. */
  predicate NullFree(v: Value)
    decreases v
  {
    match v
    case Null => false
    case Dict(es) => forall i :: 0 <= i < |es| ==> NullFree(es[i].1)
    case List(vs) => forall i :: 0 <= i < |vs| ==> NullFree(vs[i])
    case _ => true
  }

  /** The two copies of `to_query` differ only on `None`: without one they write the same pairs. */
  lemma {:induction false} PoliciesAgreeWithoutNull(v: Value, key: string)
    requires NullFree(v)
    ensures Flatten(v, key, OmitNull) == Flatten(v, key, EmptyForNull)
    decreases v
  {
    var cs := Children(v, key);
    forall i | 0 <= i < |cs| ensures FlattenEntry(OmitNull)(cs[i]) == FlattenEntry(EmptyForNull)(cs[i]) {
      assert NullFree(cs[i].1);
      PoliciesAgreeWithoutNull(cs[i].1, cs[i].0);
    }
    FlattenAllMap(cs, OmitNull, v);
    FlattenAllMap(cs, EmptyForNull, v);
    ConcatMapAgree(FlattenEntry(OmitNull), FlattenEntry(EmptyForNull), cs);
  }

  /** Every key `_encode_params(v, key)` writes is `key` itself or starts with `key[`. */
  lemma {:induction false} FlattenKeys(v: Value, key: string, policy: NullPolicy, p: (string, string))
    requires p in Flatten(v, key, policy)
    ensures p.0 == key || key + "[" <= p.0
    decreases v
  {
    var cs := Children(v, key);
    if p !in LeafPairs(v, key, policy) {
      var i := FlattenAllFrom(cs, policy, v, p);
      FlattenKeys(cs[i].1, cs[i].0, policy, p);
      ChildKeyPrefix(v, key, i);
      PrefixChain(key + "[", cs[i].0, p.0);
    }
  }

  lemma ChildKeyPrefix(v: Value, key: string, i: nat)
    requires i < |Children(v, key)|
    ensures key + "[" <= Children(v, key)[i].0
  {
    var name := if v.Dict? then v.entries[i].0 else NatText(i);
    assert Children(v, key)[i].0 == (key + "[") + (name + "]");
  }

  /** A prefix of `mid`, where `mid` is `last` itself or a prefix of it followed by `[`, is a prefix of `last`. */
  lemma PrefixChain(first: string, mid: string, last: string)
    requires first <= mid
    requires last == mid || mid + "[" <= last
    ensures first <= last
  {
    if last != mid {
      assert last[..|mid|] == (mid + "[")[..|mid|] == mid;
      assert last[..|first|] == mid[..|first|];
    }
  }

  /** What `_encode_params` writes for one (key, child) pair, as a function value. */
  function FlattenEntry(policy: NullPolicy): ((string, Value)) -> seq<(string, string)>
  {
    (c: (string, Value)) => Flatten(c.1, c.0, policy)
  }

  /** Flattening a sequence of children is concatenating what each of them writes. */
  lemma {:induction false} FlattenAllMap(cs: seq<(string, Value)>, policy: NullPolicy, parent: Value)
    requires forall i :: 0 <= i < |cs| ==> cs[i].1 < parent
    ensures FlattenAll(cs, policy, parent) == ConcatMap(FlattenEntry(policy), cs)
    decreases |cs|
  {
    if cs != [] {
      var n := |cs| - 1;
      FlattenAllMap(cs[..n], policy, parent);
      assert FlattenEntry(policy)(cs[n]) == Flatten(cs[n].1, cs[n].0, policy);
    }
  }

  /**
   * Reordering the entries of a dict reorders the pairs `_encode_params`
   * writes for them, and changes nothing else.
   */
  lemma FlattenAllPermutation(cs: seq<(string, Value)>, ds: seq<(string, Value)>, policy: NullPolicy,
                              p: Value, q: Value)
    requires forall i :: 0 <= i < |cs| ==> cs[i].1 < p
    requires forall i :: 0 <= i < |ds| ==> ds[i].1 < q
    requires multiset(cs) == multiset(ds)
    ensures multiset(FlattenAll(cs, policy, p)) == multiset(FlattenAll(ds, policy, q))
  {
    FlattenAllMap(cs, policy, p);
    FlattenAllMap(ds, policy, q);
    ConcatMapPermutation(FlattenEntry(policy), cs, ds);
  }

  /** Without two pairs for one key, the dict `to_query` fills holds the pairs in the order they were written. */
  lemma QueryPairsDistinct(params: Value, policy: NullPolicy)
    requires params.Dict? && PyDict.DistinctKeys(FlattenAll(params.entries, policy, params))
    ensures QueryPairs(params, policy) == FlattenAll(params.entries, policy, params)
  {
    PyDict.PutAllDistinct(FlattenAll(params.entries, policy, params));
  }

  /**
   * `to_query` of a reordered dict writes the same pairs, reordered, as long
   * as no two leaves land on one key (if two do, the later one wins, and
   * which one is later depends on the order).
   */
  lemma QueryPairsPermutation(es: seq<(string, Value)>, fs: seq<(string, Value)>, policy: NullPolicy)
    requires multiset(es) == multiset(fs)
    requires PyDict.DistinctKeys(FlattenAll(es, policy, Dict(es)))
    requires PyDict.DistinctKeys(FlattenAll(fs, policy, Dict(fs)))
    ensures multiset(QueryPairs(Dict(es), policy)) == multiset(QueryPairs(Dict(fs), policy))
  {
    QueryPairsDistinct(Dict(es), policy);
    QueryPairsDistinct(Dict(fs), policy);
    FlattenAllPermutation(es, fs, policy, Dict(es), Dict(fs));
  }

  /**
   * No pair written for `cs` has the key `k` when no child is called `k` and
   * `k` holds no `[`: every written key is a child's key or extends it by `[`.
   */
  lemma FlattenAllMissing(cs: seq<(string, Value)>, policy: NullPolicy, parent: Value, k: string)
    requires forall i :: 0 <= i < |cs| ==> cs[i].1 < parent
    requires forall i :: 0 <= i < |cs| ==> cs[i].0 != k
    requires '[' !in k
    ensures !PyDict.HasKey(FlattenAll(cs, policy, parent), k)
  {
    var flat := FlattenAll(cs, policy, parent);
    forall j | 0 <= j < |flat| ensures flat[j].0 != k {
      var i := FlattenAllFrom(cs, policy, parent, flat[j]);
      FlattenKeys(cs[i].1, cs[i].0, policy, flat[j]);
      if flat[j].0 != cs[i].0 {
        assert flat[j].0[|cs[i].0|] == '[';
      }
    }
  }

  /**
   * When the first entry of a dict (with distinct keys) is a scalar whose key
   * holds no `[`, the first pair `to_query` writes is that entry's.
   */
  lemma QueryPairsFirst(es: seq<(string, Value)>, policy: NullPolicy, t: string)
    requires es != [] && PyDict.DistinctKeys(es) && '[' !in es[0].0
    requires !es[0].1.Dict? && !es[0].1.List? && LeafText(es[0].1, policy) == Some(t)
    ensures QueryPairs(Dict(es), policy) != []
    ensures QueryPairs(Dict(es), policy)[0] == (es[0].0, t)
  {
    FlattenAllCons(es, policy, Dict(es));
    PyDict.DistinctTail(es);
    FlattenAllMissing(es[1..], policy, Dict(es), es[0].0);
    PyDict.PutAllFreshFirst(es[0].0, t, FlattenAll(es[1..], policy, Dict(es)));
  }

  /** Unfolds `FlattenAll` from the front, for a first child that is not a container. */
  lemma FlattenAllCons(es: seq<(string, Value)>, policy: NullPolicy, parent: Value)
    requires es != [] && !es[0].1.Dict? && !es[0].1.List?
    requires forall i :: 0 <= i < |es| ==> es[i].1 < parent
    ensures FlattenAll(es, policy, parent) == LeafPairs(es[0].1, es[0].0, policy) + FlattenAll(es[1..], policy, parent)
  {
    FlattenAllMap(es, policy, parent);
    FlattenAllMap(es[1..], policy, parent);
    ConcatMapCons(FlattenEntry(policy), es);
    FlattenScalar(es[0].1, es[0].0, policy);
  }

  /**
   * When the last entry of a dict (with distinct keys) is a scalar whose key
   * holds no `[`, the last pair `to_query` writes is that entry's.
   */
  lemma QueryPairsLast(es: seq<(string, Value)>, policy: NullPolicy, t: string)
    requires es != [] && PyDict.DistinctKeys(es) && '[' !in es[|es| - 1].0
    requires !es[|es| - 1].1.Dict? && !es[|es| - 1].1.List? && LeafText(es[|es| - 1].1, policy) == Some(t)
    ensures QueryPairs(Dict(es), policy) != []
    ensures QueryPairs(Dict(es), policy)[|QueryPairs(Dict(es), policy)| - 1] == (es[|es| - 1].0, t)
  {
    var n := |es| - 1;
    var k := es[n].0;
    var front := FlattenAll(es[..n], policy, Dict(es));
    FlattenScalar(es[n].1, k, policy);
    assert FlattenAll(es, policy, Dict(es)) == front + [(k, t)];
    PyDict.PutAllConcat([], front, [(k, t)]);
    PyDict.PutAllOne(PyDict.PutAll([], front), k, t);
    FlattenAllMissing(es[..n], policy, Dict(es), k);
    PyDict.PutAllHasKey([], front, k);
    PyDict.PutFacts(PyDict.PutAll([], front), k, t);
  }

  /**
   * Assigning a fresh bracket-free key to a scalar after the other entries
   * appends its one pair to what `to_query` writes, whatever those entries are.
   */
  lemma QueryPairsAppend(es: seq<(string, Value)>, k: string, v: Value, policy: NullPolicy, t: string)
    requires !PyDict.HasKey(es, k) && '[' !in k
    requires !v.Dict? && !v.List? && LeafText(v, policy) == Some(t)
    ensures QueryPairs(Dict(es + [(k, v)]), policy) == QueryPairs(Dict(es), policy) + [(k, t)]
  {
    var xs := es + [(k, v)];
    assert xs[..|es|] == es;
    var front := FlattenAll(es, policy, Dict(es));
    FlattenAllMap(es, policy, Dict(es));
    FlattenAllMap(es, policy, Dict(xs));
    FlattenScalar(v, k, policy);
    assert FlattenAll(xs, policy, Dict(xs)) == front + [(k, t)];
    PyDict.PutAllConcat([], front, [(k, t)]);
    PyDict.PutAllOne(PyDict.PutAll([], front), k, t);
    FlattenAllMissing(es, policy, Dict(es), k);
    PyDict.PutAllHasKey([], front, k);
  }

  /** A dict of two scalars with different keys writes their two pairs, in order. */
  lemma QueryPairsTwoScalars(a: (string, Value), b: (string, Value), policy: NullPolicy, s: string, t: string)
    requires a.0 != b.0
    requires !a.1.Dict? && !a.1.List? && LeafText(a.1, policy) == Some(s)
    requires !b.1.Dict? && !b.1.List? && LeafText(b.1, policy) == Some(t)
    ensures QueryPairs(Dict([a, b]), policy) == [(a.0, s), (b.0, t)]
  {
    var es := [a, b];
    FlattenAllCons(es, policy, Dict(es));
    FlattenAllCons(es[1..], policy, Dict(es));
    assert es[1..][1..] == [];
    assert FlattenAll(es, policy, Dict(es)) == [(a.0, s), (b.0, t)];
    QueryPairsDistinct(Dict(es), policy);
  }

  /** A scalar or `None` has no children: all it writes is its own pair. */
  lemma FlattenScalar(v: Value, key: string, policy: NullPolicy)
    requires !v.Dict? && !v.List?
    ensures Flatten(v, key, policy) == LeafPairs(v, key, policy)
  {
    assert Children(v, key) == [];
  }

  /** The example `test_simple_stringify` (tests/test_flyyer.py and tests/test_flayyer.py), both policies. */
  lemma SimpleStringify()
    ensures QueryString(Dict([("a", Str("hello")), ("b", Num(999)), ("c", Bool(false)), ("d", Null)]), OmitNull)
         == "a=hello&b=999&c=false"
    ensures QueryString(Dict([("a", Str("hello")), ("b", Num(999)), ("c", Bool(false)), ("d", Null)]), EmptyForNull)
         == "a=hello&b=999&c=false&d="
  {
    SimpleStringifyPairs(OmitNull);
    SimpleStringifyPairs(EmptyForNull);
    SimpleStringifyText();
  }

  lemma SimpleStringifyPairs(policy: NullPolicy)
    ensures policy == OmitNull ==>
      QueryPairs(Dict([("a", Str("hello")), ("b", Num(999)), ("c", Bool(false)), ("d", Null)]), policy)
      == [("a", "hello"), ("b", "999"), ("c", "false")]
    ensures policy == EmptyForNull ==>
      QueryPairs(Dict([("a", Str("hello")), ("b", Num(999)), ("c", Bool(false)), ("d", Null)]), policy)
      == [("a", "hello"), ("b", "999"), ("c", "false"), ("d", "")]
  {
    SimpleStringifyFlattened(policy);
    DistinctABCD();
    QueryPairsDistinct(Dict([("a", Str("hello")), ("b", Num(999)), ("c", Bool(false)), ("d", Null)]), policy);
  }

  lemma SimpleStringifyFlattened(policy: NullPolicy)
    ensures var v := Dict([("a", Str("hello")), ("b", Num(999)), ("c", Bool(false)), ("d", Null)]);
      policy == OmitNull ==> FlattenAll(v.entries, policy, v) == [("a", "hello"), ("b", "999"), ("c", "false")]
    ensures var v := Dict([("a", Str("hello")), ("b", Num(999)), ("c", Bool(false)), ("d", Null)]);
      policy == EmptyForNull ==>
      FlattenAll(v.entries, policy, v) == [("a", "hello"), ("b", "999"), ("c", "false"), ("d", "")]
  {
    var es := [("a", Str("hello")), ("b", Num(999)), ("c", Bool(false)), ("d", Null)];
    FlattenAllScalars(es, policy, Dict(es));
    ConcatMapFour(LeafEntry(policy), es[0], es[1], es[2], es[3]);
    assert IntText(999) == "999";
    var a, b, c := ("a", "hello"), ("b", "999"), ("c", "false");
    assert LeafEntry(policy)(es[0]) == [a];
    assert LeafEntry(policy)(es[1]) == [b];
    assert LeafEntry(policy)(es[2]) == [c];
    assert LeafEntry(policy)(es[3]) == if policy == OmitNull then [] else [("d", "")];
    assert [a] + [b] + [c] + [] == [a, b, c];
    assert [a] + [b] + [c] + [("d", "")] == [a, b, c, ("d", "")];
  }

  /** What `_encode_params` writes for a (key, value) pair whose value is not a container. */
  function LeafEntry(policy: NullPolicy): ((string, Value)) -> seq<(string, string)>
  {
    (c: (string, Value)) => LeafPairs(c.1, c.0, policy)
  }

  /** Children none of which is a container each write their own pair, in order. */
  lemma FlattenAllScalars(cs: seq<(string, Value)>, policy: NullPolicy, parent: Value)
    requires forall i :: 0 <= i < |cs| ==> cs[i].1 < parent && !cs[i].1.Dict? && !cs[i].1.List?
    ensures FlattenAll(cs, policy, parent) == ConcatMap(LeafEntry(policy), cs)
  {
    forall i | 0 <= i < |cs| ensures FlattenEntry(policy)(cs[i]) == LeafEntry(policy)(cs[i]) {
      FlattenScalar(cs[i].1, cs[i].0, policy);
    }
    FlattenAllMap(cs, policy, parent);
    ConcatMapAgree(FlattenEntry(policy), LeafEntry(policy), cs);
  }

  /** The nested dict of `test_complex_stringify`. */
  function ComplexData(): Value
  {
    Dict([("a", Dict([("aa", Str("bar")), ("ab", Str("foo"))])),
          ("b", List([Dict([("c", Str("foo"))]), Dict([("c", Str("bar"))])]))])
  }

  /**
   * The example `test_complex_stringify` (tests/test_flyyer.py and
   * tests/test_flayyer.py): the nested dict is written depth-first as
   * `a[aa]=bar&a[ab]=foo&b[0][c]=foo&b[1][c]=bar` once decoded, under both
   * policies.
   */
  lemma ComplexStringify(policy: NullPolicy)
    ensures QueryPairs(ComplexData(), policy)
         == [("a[aa]", "bar"), ("a[ab]", "foo"), ("b[0][c]", "foo"), ("b[1][c]", "bar")]
    ensures DecodeQuery(QueryString(ComplexData(), policy))
         == [(Utf8String("a[aa]"), Utf8String("bar")), (Utf8String("a[ab]"), Utf8String("foo")),
             (Utf8String("b[0][c]"), Utf8String("foo")), (Utf8String("b[1][c]"), Utf8String("bar"))]
  {
    var ps := [("a[aa]", "bar"), ("a[ab]", "foo"), ("b[0][c]", "foo"), ("b[1][c]", "bar")];
    ComplexFlattened(policy);
    ComplexKeysDistinct();
    QueryPairsDistinct(ComplexData(), policy);
    DecodeFour(ps);
  }

  /** Reading back four written pairs, spelled out. */
  lemma DecodeFour(ps: seq<(string, string)>)
    requires |ps| == 4
    ensures DecodeQuery(UrlEncode(ps)) == [(Utf8String(ps[0].0), Utf8String(ps[0].1)), (Utf8String(ps[1].0), Utf8String(ps[1].1)),
                                           (Utf8String(ps[2].0), Utf8String(ps[2].1)), (Utf8String(ps[3].0), Utf8String(ps[3].1))]
  {
    UrlEncodeRoundTrip(ps);
  }

  lemma ComplexFlattened(policy: NullPolicy)
    ensures FlattenAll(ComplexData().entries, policy, ComplexData())
         == [("a[aa]", "bar"), ("a[ab]", "foo"), ("b[0][c]", "foo"), ("b[1][c]", "bar")]
  {
    var v := ComplexData();
    FlattenAllTwo(v.entries, policy, v);
    ComplexFlattenedA(policy);
    ComplexFlattenedB(policy);
  }

  lemma ComplexFlattenedA(policy: NullPolicy)
    ensures Flatten(Dict([("aa", Str("bar")), ("ab", Str("foo"))]), "a", policy) == [("a[aa]", "bar"), ("a[ab]", "foo")]
  {
    var a := Dict([("aa", Str("bar")), ("ab", Str("foo"))]);
    ComplexKeys();
    FlattenContainer(a, "a", policy);
    assert Children(a, "a") == [("a[aa]", Str("bar")), ("a[ab]", Str("foo"))];
    FlattenAllTwo(Children(a, "a"), policy, a);
    FlattenScalar(Str("bar"), "a[aa]", policy);
    FlattenScalar(Str("foo"), "a[ab]", policy);
  }

  lemma ComplexFlattenedB(policy: NullPolicy)
    ensures Flatten(List([Dict([("c", Str("foo"))]), Dict([("c", Str("bar"))])]), "b", policy)
         == [("b[0][c]", "foo"), ("b[1][c]", "bar")]
  {
    var b0, b1 := Dict([("c", Str("foo"))]), Dict([("c", Str("bar"))]);
    var b := List([b0, b1]);
    ComplexKeys();
    FlattenContainer(b, "b", policy);
    assert Children(b, "b") == [("b[0]", b0), ("b[1]", b1)];
    FlattenAllTwo(Children(b, "b"), policy, b);
    FlattenOneScalar(b0, "b[0]", "c", "foo", policy);
    FlattenOneScalar(b1, "b[1]", "c", "bar", policy);
  }

  /** Flattening two children is what the first writes, then what the second writes. */
  lemma FlattenAllTwo(cs: seq<(string, Value)>, policy: NullPolicy, parent: Value)
    requires |cs| == 2 && cs[0].1 < parent && cs[1].1 < parent
    ensures FlattenAll(cs, policy, parent) == Flatten(cs[0].1, cs[0].0, policy) + Flatten(cs[1].1, cs[1].0, policy)
  {
    assert cs[..1][..0] == [] && cs[..1][0] == cs[0];
    assert FlattenAll(cs[..1], policy, parent) == Flatten(cs[0].1, cs[0].0, policy);
    assert FlattenAll(cs, policy, parent) == FlattenAll(cs[..1], policy, parent) + Flatten(cs[1].1, cs[1].0, policy);
  }

  /** A one-entry dict holding a string writes one pair, under the bracketed key. */
  lemma FlattenOneScalar(v: Value, key: string, name: string, s: string, policy: NullPolicy)
    requires v == Dict([(name, Str(s))])
    ensures Flatten(v, key, policy) == [(ChildKey(key, name), s)]
  {
    var cs := Children(v, key);
    FlattenContainer(v, key, policy);
    assert cs[..0] == [];
    FlattenScalar(Str(s), ChildKey(key, name), policy);
  }

  lemma ComplexKeys()
    ensures ChildKey("a", "aa") == "a[aa]" && ChildKey("a", "ab") == "a[ab]"
    ensures ChildKey("b", NatText(0)) == "b[0]" && ChildKey("b", NatText(1)) == "b[1]"
    ensures ChildKey("b[0]", "c") == "b[0][c]" && ChildKey("b[1]", "c") == "b[1][c]"
  {
    assert NatText(0) == "0" && NatText(1) == "1";
  }

  lemma ComplexKeysDistinct()
    ensures PyDict.DistinctKeys([("a[aa]", "bar"), ("a[ab]", "foo"), ("b[0][c]", "foo"), ("b[1][c]", "bar")])
  {
    var ks := ["a[aa]", "a[ab]", "b[0][c]", "b[1][c]"];
    assert forall i, j :: 0 <= i < j < 4 ==> ks[i] != ks[j] by {
      assert ks[0][3] != ks[1][3] && ks[2][2] != ks[3][2];
      assert ks[0][0] != ks[2][0] && ks[0][0] != ks[3][0] && ks[1][0] != ks[2][0] && ks[1][0] != ks[3][0];
    }
  }

  lemma SimpleStringifyText()
    ensures UrlEncode([("a", "hello"), ("b", "999"), ("c", "false")]) == "a=hello&b=999&c=false"
    ensures UrlEncode([("a", "hello"), ("b", "999"), ("c", "false"), ("d", "")]) == "a=hello&b=999&c=false&d="
  {
    SimpleStringifyEncodedPairs();
    SimpleStringifyJoin();
  }

  lemma SimpleStringifyJoin()
    ensures Join(["a=hello", "b=999", "c=false"], '&') == "a=hello&b=999&c=false"
    ensures Join(["a=hello", "b=999", "c=false", "d="], '&') == "a=hello&b=999&c=false&d="
  {
    assert Join(["c=false"], '&') == "c=false";
    assert Join(["b=999", "c=false"], '&') == "b=999&c=false";
    assert Join(["d="], '&') == "d=";
    assert Join(["c=false", "d="], '&') == "c=false&d=";
    assert Join(["b=999", "c=false", "d="], '&') == "b=999&c=false&d=";
  }

  lemma SimpleStringifyEncodedPairs()
    ensures EncodedPairs([("a", "hello"), ("b", "999"), ("c", "false")]) == ["a=hello", "b=999", "c=false"]
    ensures EncodedPairs([("a", "hello"), ("b", "999"), ("c", "false"), ("d", "")]) == ["a=hello", "b=999", "c=false", "d="]
  {
    SimpleStringifyEncodePair();
  }

  lemma SimpleStringifyEncodePair()
    ensures EncodePair(("a", "hello")) == "a=hello" && EncodePair(("b", "999")) == "b=999"
    ensures EncodePair(("c", "false")) == "c=false" && EncodePair(("d", "")) == "d="
  {
    QuotedLetters();
    QuotedWord("hello");
    QuotedWord("999");
    QuotedWord("false");
  }

  lemma QuotedLetters()
    ensures QuotePlus("a") == "a" && QuotePlus("b") == "b" && QuotePlus("c") == "c" && QuotePlus("d") == "d"
    ensures QuotePlus("") == ""
  {
    QuotePlusUnreserved("a");
    QuotePlusUnreserved("b");
    QuotePlusUnreserved("c");
    QuotePlusUnreserved("d");
  }

  lemma QuotedWord(w: string)
    requires w == "hello" || w == "999" || w == "false"
    ensures QuotePlus(w) == w
  {
    QuotePlusUnreserved(w);
  }

  lemma DistinctABCD()
    ensures PyDict.DistinctKeys([("a", "hello"), ("b", "999"), ("c", "false")])
    ensures PyDict.DistinctKeys([("a", "hello"), ("b", "999"), ("c", "false"), ("d", "")])
  {
    var ks := ["a", "b", "c", "d"];
    assert forall i, j :: 0 <= i < j < 4 ==> ks[i] != ks[j] by {
      assert "a"[0] != "b"[0] && "a"[0] != "c"[0] && "a"[0] != "d"[0];
      assert "b"[0] != "c"[0] && "b"[0] != "d"[0] && "c"[0] != "d"[0];
    }
  }
}
