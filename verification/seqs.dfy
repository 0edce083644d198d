/** Sequences used as insertion-ordered sets, the way a JS `Set` behaves:
    no duplicates, `add` appends only an absent element, `delete` removes it
    and keeps the order of the rest. */
module Seqs {

  predicate NoDup<T(==, !new)>(xs: seq<T>) {
    forall i, j :: 0 <= i < j < |xs| ==> xs[i] != xs[j]
  }

  /** `set.delete(x)`: every element but `x`, in their original order. */
  function Without<T(==, !new)>(xs: seq<T>, x: T): (r: seq<T>)
    ensures forall y :: y in r <==> y in xs && y != x
    ensures NoDup(xs) ==> NoDup(r)
    ensures x in xs && NoDup(xs) ==> |r| == |xs| - 1
    ensures x !in xs ==> r == xs
  {
    if |xs| == 0 then []
    else if xs[0] == x then Without(xs[1..], x)
    else
      var rest := Without(xs[1..], x);
      assert NoDup(xs) ==> xs[0] !in xs[1..];
      [xs[0]] + rest
  }

  /** Deleting distributes over concatenation. */
  lemma {:induction false} WithoutAppend<T(!new)>(a: seq<T>, b: seq<T>, x: T)
    ensures Without(a + b, x) == Without(a, x) + Without(b, x)
  {
    if |a| == 0 {
      assert a + b == b;
    } else {
      assert (a + b)[0] == a[0] && (a + b)[1..] == a[1..] + b;
      WithoutAppend(a[1..], b, x);
    }
  }

  /** In a duplicate-free sequence an entry occurs nowhere else. */
  lemma OccursOnce<T(!new)>(xs: seq<T>, i: nat)
    requires NoDup(xs) && i < |xs|
    ensures xs[i] !in xs[..i] && xs[i] !in xs[i + 1..]
  {
    var pre, post := xs[..i], xs[i + 1..];
    forall j | 0 <= j < |pre|
      ensures pre[j] != xs[i]
    {
      assert pre[j] == xs[j];
    }
    forall j | 0 <= j < |post|
      ensures post[j] != xs[i]
    {
      assert post[j] == xs[i + 1 + j];
    }
  }

  /** Deleting from a duplicate-free sequence cuts out the one occurrence
      and leaves the rest in their original order. */
  lemma WithoutRemovesAt<T(!new)>(xs: seq<T>, i: nat)
    requires NoDup(xs) && i < |xs|
    ensures Without(xs, xs[i]) == xs[..i] + xs[i + 1..]
  {
    OccursOnce(xs, i);
    SplitAt(xs, i);
    WithoutCutsAt(xs[..i], xs[i], xs[i + 1..]);
  }

  /** A sequence is its prefix, the entry at `i` and its suffix. */
  lemma SplitAt<T>(xs: seq<T>, i: nat)
    requires i < |xs|
    ensures xs == xs[..i] + [xs[i]] + xs[i + 1..]
  {
  }

  /** Deleting an element that occurs once cuts out that occurrence. */
  lemma WithoutCutsAt<T(!new)>(pre: seq<T>, x: T, post: seq<T>)
    requires x !in pre && x !in post
    ensures Without(pre + [x] + post, x) == pre + post
  {
    var rest := [x] + post;
    assert rest[0] == x && rest[1..] == post;
    assert Without(rest, x) == post;
    assert pre + [x] + post == pre + rest;
    WithoutAppend(pre, rest, x);
  }

  /** `set.add(x)`: appends `x` unless it is already present. */
  function Add<T(==, !new)>(xs: seq<T>, x: T): (r: seq<T>)
    ensures forall y :: y in r <==> y in xs || y == x
    ensures NoDup(xs) ==> NoDup(r)
    ensures x !in xs ==> |r| == |xs| + 1 && r[..|xs|] == xs && r[|xs|] == x
    ensures x in xs ==> r == xs
  {
    if x in xs then xs else xs + [x]
  }

  /** A sequence without duplicates has as many distinct elements as entries. */
  lemma {:induction false} NoDupCard<T(!new)>(xs: seq<T>)
    requires NoDup(xs)
    ensures |set x | x in xs| == |xs|
  {
    if |xs| > 0 {
      var tail := xs[1..];
      NoDupCard(tail);
      assert (set x | x in xs) == (set x | x in tail) + {xs[0]};
    }
  }
}
