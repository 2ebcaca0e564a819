/** Sequences with the same elements. */
module Multisets {

  /** The last of a, a place where it stands in b, and what is left of both. */
  lemma TakeOut<T>(a: seq<T>, b: seq<T>) returns (init: seq<T>, c: T, b1: seq<T>, b2: seq<T>)
    requires a != [] && multiset(a) == multiset(b)
    ensures a == init + [c] && b == b1 + [c] + b2 && init == a[..|a| - 1] && multiset(init) == multiset(b1 + b2)
  {
    init, c := a[..|a| - 1], a[|a| - 1];
    assert c in multiset(b);
    var j :| 0 <= j < |b| && b[j] == c;
    b1, b2 := b[..j], b[j + 1..];
    assert a == init + [c] && b == b1 + [c] + b2;
    SameRest(init, c, b1, b2);
  }

  lemma SameRest<T>(a: seq<T>, c: T, b1: seq<T>, b2: seq<T>)
    requires multiset(a + [c]) == multiset(b1 + [c] + b2)
    ensures multiset(a) == multiset(b1 + b2)
  {
    assert multiset(a) + multiset{c} == multiset(b1 + b2) + multiset{c};
    assert multiset(a) == multiset(a) + multiset{c} - multiset{c};
    assert multiset(b1 + b2) == multiset(b1 + b2) + multiset{c} - multiset{c};
  }
}
