/** Descending sorting of a finite set by a strict total order `above`
    ("`a` ranks before `b`"). The in-memory store sorts its score keys with
    `b - a`, and a Redis reverse range orders members by composite score;
    both are this one operation with a different order. */
module Sorting {
  import Seqs

  /** `above` is a strict total order on the elements of `s`. */
  ghost predicate StrictTotalOn<T(!new)>(above: (T, T) -> bool, s: set<T>) {
    && (forall a | a in s :: !above(a, a))
    && (forall a, b | a in s && b in s && a != b :: above(a, b) || above(b, a))
    && (forall a, b, c | a in s && b in s && c in s :: above(a, b) && above(b, c) ==> above(a, c))
  }

  /** `r` lists its elements from the top of `above` down. */
  ghost predicate SortedBy<T>(above: (T, T) -> bool, r: seq<T>) {
    forall i, j :: 0 <= i < j < |r| ==> above(r[i], r[j])
  }

  /** `m` ranks before every other element of `s`. */
  predicate IsTop<T(==, !new)>(above: (T, T) -> bool, s: set<T>, m: T) {
    m in s && forall x | x in s && x != m :: above(m, x)
  }

  lemma StrictTotalOnSubset<T(!new)>(above: (T, T) -> bool, s: set<T>, t: set<T>)
    requires StrictTotalOn(above, s) && t <= s
    ensures StrictTotalOn(above, t)
  {
  }

  lemma {:induction false} TopExists<T(!new)>(above: (T, T) -> bool, s: set<T>)
    requires s != {} && StrictTotalOn(above, s)
    ensures exists m :: IsTop(above, s, m)
    decreases |s|
  {
    var x :| x in s;
    if s == {x} {
      assert IsTop(above, s, x);
    } else {
      var rest := s - {x};
      StrictTotalOnSubset(above, s, rest);
      TopExists(above, rest);
      var m :| IsTop(above, rest, m);
      if above(m, x) {
        assert IsTop(above, s, m);
      } else {
        assert IsTop(above, s, x);
      }
    }
  }

  lemma TopUnique<T(!new)>(above: (T, T) -> bool, s: set<T>)
    requires StrictTotalOn(above, s)
    ensures forall m1, m2 :: IsTop(above, s, m1) && IsTop(above, s, m2) ==> m1 == m2
  {
  }

  /** The element of `s` that ranks first. */
  function Top<T(==, !new)>(above: (T, T) -> bool, s: set<T>): (m: T)
    requires s != {} && StrictTotalOn(above, s)
    ensures IsTop(above, s, m)
  {
    TopExists(above, s);
    TopUnique(above, s);
    var m :| IsTop(above, s, m);
    m
  }

  /** The elements of `s`, each once, from the top of `above` down. */
  function SortBy<T(==, !new)>(s: set<T>, above: (T, T) -> bool): (r: seq<T>)
    requires StrictTotalOn(above, s)
    ensures |r| == |s|
    ensures forall x :: x in r <==> x in s
    ensures SortedBy(above, r)
    decreases |s|
  {
    if s == {} then []
    else
      var m := Top(above, s);
      StrictTotalOnSubset(above, s, s - {m});
      [m] + SortBy(s - {m}, above)
  }

  /** The elements of `s` that rank before `v`. */
  ghost function AboveIn<T(!new)>(above: (T, T) -> bool, s: set<T>, v: T): (r: set<T>)
    ensures forall x :: x in r <==> x in s && above(x, v)
  {
    set x | x in s && above(x, v)
  }

  /** In a sorted listing of `s`, the elements that rank before position `i`
      are exactly the elements of `s` above `r[i]`, and there are `i` of them. */
  lemma RankOfSorted<T(!new)>(above: (T, T) -> bool, s: set<T>, r: seq<T>, i: int)
    requires StrictTotalOn(above, s)
    requires (forall x :: x in r <==> x in s) && SortedBy(above, r)
    requires 0 <= i < |r|
    ensures AboveIn(above, s, r[i]) == (set x | x in r[..i])
    ensures |AboveIn(above, s, r[i])| == i
  {
    var prefix := r[..i];
    assert Seqs.NoDup(prefix) by {
      forall a, b | 0 <= a < b < |prefix|
        ensures prefix[a] != prefix[b]
      {
        assert above(r[a], r[b]);
      }
    }
    Seqs.NoDupCard(prefix);
  }
}
