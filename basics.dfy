/** Small shared datatypes and sequence helpers. */
module Basics {

  /** A value that may be absent (Python's `None`). */
  datatype Option<T> = None | Some(value: T) {
    function GetOr(default: T): T {
      match this
      case Some(v) => v
      case None => default
    }
  }

  /** `[f(x) for x in xs]`. */
  function Map<A, B>(f: A -> B, xs: seq<A>): (ys: seq<B>)
    ensures |ys| == |xs|
  {
    if xs == [] then [] else [f(xs[0])] + Map(f, xs[1..])
  }

  lemma {:induction false} MapAppend<A, B>(f: A -> B, a: seq<A>, b: seq<A>)
    ensures Map(f, a + b) == Map(f, a) + Map(f, b)
  {
    if a == [] {
      assert a + b == b;
    } else {
      assert (a + b)[0] == a[0] && (a + b)[1..] == a[1..] + b;
      MapAppend(f, a[1..], b);
    }
  }

  /** The `i`-th element of a map is the image of the `i`-th element. */
  lemma {:induction false} MapIndex<A, B>(f: A -> B, xs: seq<A>)
    ensures forall i :: 0 <= i < |xs| ==> Map(f, xs)[i] == f(xs[i])
  {
    if xs != [] {
      MapIndex(f, xs[1..]);
      assert forall i :: 1 <= i < |xs| ==> Map(f, xs)[i] == Map(f, xs[1..])[i - 1];
    }
  }

  /** Concatenate the sequences `f` gives for each element, in order. */
  function Collect<A, B>(f: A -> seq<B>, xs: seq<A>): seq<B> {
    if xs == [] then [] else f(xs[0]) + Collect(f, xs[1..])
  }

  lemma CollectOne<A, B>(f: A -> seq<B>, x: A)
    ensures Collect(f, [x]) == f(x)
  {
    assert [x][1..] == [];
    assert Collect(f, [x]) == f(x) + Collect(f, []);
  }

  lemma {:induction false} CollectAppend<A, B>(f: A -> seq<B>, a: seq<A>, b: seq<A>)
    ensures Collect(f, a + b) == Collect(f, a) + Collect(f, b)
  {
    if a == [] {
      assert a + b == b;
    } else {
      assert (a + b)[0] == a[0] && (a + b)[1..] == a[1..] + b;
      CollectAppend(f, a[1..], b);
    }
  }

  /** The elements satisfying `p`, in order. */
  function Filter<A>(p: A -> bool, xs: seq<A>): (ys: seq<A>)
    ensures |ys| <= |xs|
  {
    if xs == [] then [] else (if p(xs[0]) then [xs[0]] else []) + Filter(p, xs[1..])
  }

  lemma {:induction false} FilterMember<A>(p: A -> bool, xs: seq<A>, x: A)
    ensures x in Filter(p, xs) <==> x in xs && p(x)
  {
    if xs != [] {
      FilterMember(p, xs[1..], x);
      assert xs == [xs[0]] + xs[1..];
    }
  }

  /** Each element is kept as often as it occurs when it passes, and never otherwise. */
  lemma {:induction false} FilterCount<A>(p: A -> bool, xs: seq<A>, x: A)
    ensures multiset(Filter(p, xs))[x] == if p(x) then multiset(xs)[x] else 0
  {
    if xs != [] {
      FilterCount(p, xs[1..], x);
      assert xs == [xs[0]] + xs[1..];
      assert multiset(xs) == multiset([xs[0]]) + multiset(xs[1..]);
    }
  }

  lemma {:induction false} FilterAppend<A>(p: A -> bool, a: seq<A>, b: seq<A>)
    ensures Filter(p, a + b) == Filter(p, a) + Filter(p, b)
  {
    if a == [] {
      assert a + b == b;
    } else {
      var h := if p(a[0]) then [a[0]] else [];
      assert (a + b)[0] == a[0];
      assert (a + b)[1..] == a[1..] + b;
      FilterAppend(p, a[1..], b);
      assert Filter(p, a + b) == h + Filter(p, a[1..] + b);
      assert Filter(p, a) == h + Filter(p, a[1..]);
    }
  }

  /** Nothing passes the filter when no element satisfies the predicate. */
  lemma FilterNone<A>(p: A -> bool, xs: seq<A>)
    requires forall x :: x in xs ==> !p(x)
    ensures Filter(p, xs) == []
  {
    if Filter(p, xs) != [] {
      FilterMember(p, xs, Filter(p, xs)[0]);
    }
  }

  /** Two predicates no element satisfies together keep no more elements between them
      than the sequence has. */
  lemma {:induction false} FilterDisjoint<A>(p: A -> bool, q: A -> bool, xs: seq<A>)
    requires forall x :: x in xs ==> !(p(x) && q(x))
    ensures |Filter(p, xs)| + |Filter(q, xs)| <= |xs|
  {
    if xs != [] {
      FilterDisjoint(p, q, xs[1..]);
    }
  }

  /** Removing the element at `k` leaves the multiset minus that element. */
  lemma {:induction false} RemoveAt<A>(ys: seq<A>, k: nat)
    requires k < |ys|
    ensures multiset(ys[..k] + ys[k + 1..]) == multiset(ys) - multiset{ys[k]}
  {
    assert ys == ys[..k] + [ys[k]] + ys[k + 1..];
  }

  /** Mapping, then removing the image of the element at `k`, is removing, then mapping. */
  lemma {:induction false} MapRemoveAt<A, B>(f: A -> B, ys: seq<A>, k: nat)
    requires k < |ys|
    ensures multiset(Map(f, ys)) == multiset(Map(f, ys[..k] + ys[k + 1..])) + multiset{f(ys[k])}
  {
    var a, b := ys[..k], ys[k + 1..];
    assert a + [ys[k]] + b == ys;
    MapAppend(f, a, b);
    MapAppend(f, a, [ys[k]]);
    MapAppend(f, a + [ys[k]], b);
    assert Map(f, [ys[k]]) == [f(ys[k])];
  }

  /** An element of `ys` matching the head of `xs`, whose removal leaves the same multiset
      as the tail of `xs`. */
  lemma PickMatch<A>(xs: seq<A>, ys: seq<A>) returns (k: nat)
    requires multiset(xs) == multiset(ys) && xs != []
    ensures k < |ys| && ys[k] == xs[0]
    ensures multiset(xs[1..]) == multiset(ys[..k] + ys[k + 1..])
  {
    assert xs[0] in multiset(ys);
    assert xs[0] in ys;
    k :| 0 <= k < |ys| && ys[k] == xs[0];
    RemoveAt(ys, k);
    assert xs == [xs[0]] + xs[1..];
    assert multiset(xs) == multiset{xs[0]} + multiset(xs[1..]);
  }

  /** The images of a non-empty sequence are the head's image and the tail's images. */
  lemma MapHead<A, B>(f: A -> B, xs: seq<A>)
    requires xs != []
    ensures multiset(Map(f, xs)) == multiset(Map(f, xs[1..])) + multiset{f(xs[0])}
  {
    assert Map(f, xs) == [f(xs[0])] + Map(f, xs[1..]);
  }

  /** Mapping commutes with reordering: equal multisets map to equal multisets. */
  lemma {:induction false} MapPermutation<A, B>(f: A -> B, xs: seq<A>, ys: seq<A>)
    requires multiset(xs) == multiset(ys)
    ensures multiset(Map(f, xs)) == multiset(Map(f, ys))
    decreases |xs|
  {
    if xs == [] {
      assert |ys| == |multiset(ys)| == 0;
    } else {
      var k := PickMatch(xs, ys);
      MapPermutation(f, xs[1..], ys[..k] + ys[k + 1..]);
      MapRemoveAt(f, ys, k);
      MapHead(f, xs);
    }
  }
}
