/** What several modules say of sequences and sets. */
module Collections {

  ghost predicate NoRepeats<T>(s: seq<T>) {
    forall i, j :: 0 <= i < j < |s| ==> s[i] != s[j]
  }

  ghost predicate SameElements<T(!new)>(xs: seq<T>, ys: seq<T>) {
    forall x :: x in xs <==> x in ys
  }

  lemma {:induction false} SubsetSize<T>(a: set<T>, b: set<T>)
    requires a <= b
    ensures |a| <= |b|
  {
    if a == {} {
    } else {
      var x :| x in a;
      SubsetSize(a - {x}, b - {x});
    }
  }
}

/** Chains of edges from some roots, and what they reach. */
module Chains {

  ghost predicate IsChain<T(!new)>(roots: set<T>, edge: (T, T) -> bool, chain: seq<T>) {
    && chain != [] && chain[0] in roots
    && forall i :: 0 < i < |chain| ==> edge(chain[i - 1], chain[i])
  }

  ghost predicate Reaches<T(!new)>(roots: set<T>, edge: (T, T) -> bool, x: T) {
    exists chain :: IsChain(roots, edge, chain) && chain[|chain| - 1] == x
  }

  ghost predicate Closed<T(!new)>(edge: (T, T) -> bool, xs: set<T>) {
    forall x, y :: x in xs && edge(x, y) ==> y in xs
  }

  lemma RootReached<T(!new)>(roots: set<T>, edge: (T, T) -> bool, x: T)
    requires x in roots
    ensures Reaches(roots, edge, x)
  {
    assert IsChain(roots, edge, [x]);
  }

  lemma NextReached<T(!new)>(roots: set<T>, edge: (T, T) -> bool, x: T, y: T)
    requires Reaches(roots, edge, x) && edge(x, y)
    ensures Reaches(roots, edge, y)
  {
    var chain :| IsChain(roots, edge, chain) && chain[|chain| - 1] == x;
    assert IsChain(roots, edge, chain + [y]);
  }

  /** More edges reach more. */
  lemma MoreEdges<T(!new)>(roots: set<T>, edge: (T, T) -> bool, more: (T, T) -> bool, x: T)
    requires (forall a, b :: edge(a, b) ==> more(a, b)) && Reaches(roots, edge, x)
    ensures Reaches(roots, more, x)
  {
    var chain :| IsChain(roots, edge, chain) && chain[|chain| - 1] == x;
    forall i | 0 < i < |chain| ensures more(chain[i - 1], chain[i]) {
      assert edge(chain[i - 1], chain[i]);
    }
    assert IsChain(roots, more, chain);
  }

  /** What is reached is a root or at the end of an edge. */
  lemma LastEdge<T(!new)>(roots: set<T>, edge: (T, T) -> bool, x: T)
    requires Reaches(roots, edge, x)
    ensures x in roots || exists y :: edge(y, x)
  {
    var chain :| IsChain(roots, edge, chain) && chain[|chain| - 1] == x;
    if |chain| > 1 {
      assert edge(chain[|chain| - 2], chain[|chain| - 1]);
    }
  }

  /** A closed set with the roots holds everything that is reached. */
  lemma ClosedHoldsReached<T(!new)>(roots: set<T>, edge: (T, T) -> bool, xs: set<T>, x: T)
    requires Closed(edge, xs) && roots <= xs && Reaches(roots, edge, x)
    ensures x in xs
  {
    var chain :| IsChain(roots, edge, chain) && chain[|chain| - 1] == x;
    ChainInside(roots, edge, xs, chain, |chain| - 1);
  }

  lemma {:induction false} ChainInside<T(!new)>(roots: set<T>, edge: (T, T) -> bool, xs: set<T>, chain: seq<T>, k: nat)
    requires Closed(edge, xs) && roots <= xs && IsChain(roots, edge, chain) && k < |chain|
    ensures chain[k] in xs
  {
    if k == 0 {
    } else {
      ChainInside(roots, edge, xs, chain, k - 1);
      assert edge(chain[k - 1], chain[k]);
    }
  }
}
