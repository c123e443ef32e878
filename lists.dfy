/**
 * Facts about Python list comprehensions and loops over lists that do not
 * depend on what is computed per element: `[f(x) for x in s]`, and the
 * concatenation of `f(x)` over `s`, which a loop appending to one result
 * list computes.  Reordering the input reorders the output and changes
 * nothing else.
 */
module Lists {

  /** `[f(x) for x in s]`. */
  function MapSeq<A, B>(f: A -> B, s: seq<A>): (r: seq<B>)
    ensures |r| == |s|
    ensures forall i :: 0 <= i < |s| ==> r[i] == f(s[i])
  {
    seq(|s|, i requires 0 <= i < |s| => f(s[i]))
  }

  /** `f(s[0]) + f(s[1]) + ...`, built from the back as a loop appends. */
  function ConcatMap<A, B>(f: A -> seq<B>, s: seq<A>): seq<B>
  {
    if s == [] then []
    else ConcatMap(f, s[..|s| - 1]) + f(s[|s| - 1])
  }

  /** Taking the same element out of two permutations of each other leaves permutations of each other. */
  lemma PermutationRemove<T>(ps: seq<T>, qs: seq<T>, k: nat)
    requires multiset(ps) == multiset(qs) && |ps| > 0 && k < |qs| && qs[k] == ps[|ps| - 1]
    ensures multiset(ps[..|ps| - 1]) == multiset(qs[..k] + qs[k + 1..])
  {
    DropLast(ps);
    DropAt(qs, k);
  }

  lemma DropLast<T>(ps: seq<T>)
    requires |ps| > 0
    ensures multiset(ps[..|ps| - 1]) == multiset(ps) - multiset{ps[|ps| - 1]}
  {
    var n := |ps| - 1;
    assert ps == ps[..n] + [ps[n]];
    assert multiset(ps) == multiset(ps[..n]) + multiset{ps[n]};
  }

  lemma DropAt<T>(qs: seq<T>, k: nat)
    requires k < |qs|
    ensures multiset(qs[..k] + qs[k + 1..]) == multiset(qs) - multiset{qs[k]}
  {
    assert qs == qs[..k] + [qs[k]] + qs[k + 1..];
    assert multiset(qs) == multiset(qs[..k]) + multiset{qs[k]} + multiset(qs[k + 1..]);
  }

  /** The last element of `ps` occurs somewhere in any permutation of `ps`. */
  lemma FindLast<T>(ps: seq<T>, qs: seq<T>) returns (k: nat)
    requires multiset(ps) == multiset(qs) && |ps| > 0
    ensures k < |qs| && qs[k] == ps[|ps| - 1]
  {
    assert ps[|ps| - 1] in multiset(qs) by {
      assert ps[|ps| - 1] in multiset(ps);
    }
    k :| 0 <= k < |qs| && qs[k] == ps[|ps| - 1];
  }

  /** A comprehension is a concatenation of one-element lists. */
  lemma {:induction false} MapSeqConcatMap<A, B>(f: A -> B, s: seq<A>)
    ensures MapSeq(f, s) == ConcatMap((x: A) => [f(x)], s)
    decreases |s|
  {
    if s != [] {
      var n := |s| - 1;
      MapSeqConcatMap(f, s[..n]);
      assert MapSeq(f, s) == MapSeq(f, s[..n]) + [f(s[n])];
    }
  }

  /** Mapping two permutations of each other gives permutations of each other. */
  lemma MapPermutation<A, B>(f: A -> B, ps: seq<A>, qs: seq<A>)
    requires multiset(ps) == multiset(qs)
    ensures multiset(MapSeq(f, ps)) == multiset(MapSeq(f, qs))
  {
    MapSeqConcatMap(f, ps);
    MapSeqConcatMap(f, qs);
    ConcatMapPermutation((x: A) => [f(x)], ps, qs);
  }

  /** Concatenating over `a + b` is concatenating over `a`, then over `b`. */
  lemma {:induction false} ConcatMapConcat<A, B>(f: A -> seq<B>, a: seq<A>, b: seq<A>)
    ensures ConcatMap(f, a + b) == ConcatMap(f, a) + ConcatMap(f, b)
    decreases |b|
  {
    if b == [] {
      assert a + b == a;
    } else {
      var n := |b| - 1;
      ConcatMapConcat(f, a, b[..n]);
      AppendLast(a, b);
    }
  }

  lemma AppendLast<T>(a: seq<T>, b: seq<T>)
    requires b != []
    ensures (a + b)[..|a + b| - 1] == a + b[..|b| - 1]
    ensures (a + b)[|a + b| - 1] == b[|b| - 1]
  {
  }

  /** `s` cut after its `k`-th element. */
  lemma SplitAt<T>(s: seq<T>, k: nat)
    requires k < |s|
    ensures s[..k + 1][..k] == s[..k] && s[..k + 1][k] == s[k]
    ensures s[..k + 1] + s[k + 1..] == s
  {
  }

  /** Concatenating around one element: the elements before it, the element, the elements after it. */
  lemma ConcatMapPick<A, B>(f: A -> seq<B>, s: seq<A>, k: nat)
    requires k < |s|
    ensures ConcatMap(f, s) == ConcatMap(f, s[..k]) + f(s[k]) + ConcatMap(f, s[k + 1..])
  {
    var front := s[..k + 1];
    SplitAt(s, k);
    assert ConcatMap(f, front) == ConcatMap(f, s[..k]) + f(s[k]);
    ConcatMapConcat(f, front, s[k + 1..]);
  }

  /** Concatenating over two permutations of each other gives permutations of each other. */
  lemma {:induction false} ConcatMapPermutation<A, B>(f: A -> seq<B>, ps: seq<A>, qs: seq<A>)
    requires multiset(ps) == multiset(qs)
    ensures multiset(ConcatMap(f, ps)) == multiset(ConcatMap(f, qs))
    decreases |ps|
  {
    assert |ps| == |multiset(ps)| == |multiset(qs)| == |qs|;
    if ps != [] {
      var n := |ps| - 1;
      var k := FindLast(ps, qs);
      var rest := qs[..k] + qs[k + 1..];
      PermutationRemove(ps, qs, k);
      ConcatMapPermutation(f, ps[..n], rest);
      ConcatMapPick(f, qs, k);
      ConcatMapConcat(f, qs[..k], qs[k + 1..]);
      MultisetInsert(ConcatMap(f, ps[..n]), ConcatMap(f, qs[..k]), ConcatMap(f, qs[k + 1..]), f(ps[n]),
                     ConcatMap(f, ps), ConcatMap(f, qs));
    }
  }

  /** Inserting the same run into two permutations of each other, anywhere, gives permutations of each other. */
  lemma MultisetInsert<T>(l: seq<T>, before: seq<T>, after: seq<T>, x: seq<T>, lx: seq<T>, whole: seq<T>)
    requires multiset(l) == multiset(before + after)
    requires lx == l + x && whole == before + x + after
    ensures multiset(lx) == multiset(whole)
  {
  }

  /** What one element contributes is in the whole concatenation. */
  lemma {:induction false} ConcatMapHas<A, B>(f: A -> seq<B>, s: seq<A>, i: nat, y: B)
    requires i < |s| && y in f(s[i])
    ensures y in ConcatMap(f, s)
    decreases |s|
  {
    var n := |s| - 1;
    if i < n {
      SplitAt(s, i);
      assert s[..n][i] == s[i];
      ConcatMapHas(f, s[..n], i, y);
    }
  }

  /** Whatever is in the concatenation was contributed by some element. */
  lemma {:induction false} ConcatMapFrom<A, B>(f: A -> seq<B>, s: seq<A>, y: B) returns (i: nat)
    requires y in ConcatMap(f, s)
    ensures i < |s| && y in f(s[i])
    decreases |s|
  {
    var n := |s| - 1;
    if y in f(s[n]) {
      i := n;
    } else {
      i := ConcatMapFrom(f, s[..n], y);
      assert s[..n][i] == s[i];
    }
  }

  /** Two per-element functions that agree on every element give the same concatenation. */
  lemma {:induction false} ConcatMapAgree<A, B>(f: A -> seq<B>, g: A -> seq<B>, s: seq<A>)
    requires forall i :: 0 <= i < |s| ==> f(s[i]) == g(s[i])
    ensures ConcatMap(f, s) == ConcatMap(g, s)
    decreases |s|
  {
    if s != [] {
      var n := |s| - 1;
      assert forall i :: 0 <= i < n ==> s[..n][i] == s[i];
      ConcatMapAgree(f, g, s[..n]);
    }
  }

  /** The concatenation over a list of four, written out. */
  lemma ConcatMapFour<A, B>(f: A -> seq<B>, a: A, b: A, c: A, d: A)
    ensures ConcatMap(f, [a, b, c, d]) == f(a) + f(b) + f(c) + f(d)
  {
    assert [a][..0] == [];
    assert ConcatMap(f, [a]) == f(a);
    assert [a, b][..1] == [a];
    assert ConcatMap(f, [a, b]) == f(a) + f(b);
    assert [a, b, c][..2] == [a, b];
    assert ConcatMap(f, [a, b, c]) == f(a) + f(b) + f(c);
    assert [a, b, c, d][..3] == [a, b, c];
  }

  /** The concatenation starts with what the first element contributes. */
  lemma ConcatMapCons<A, B>(f: A -> seq<B>, s: seq<A>)
    requires s != []
    ensures ConcatMap(f, s) == f(s[0]) + ConcatMap(f, s[1..])
  {
    assert [s[0]][..0] == [];
    assert ConcatMap(f, [s[0]]) == f(s[0]);
    assert [s[0]] + s[1..] == s;
    ConcatMapConcat(f, [s[0]], s[1..]);
  }
}
