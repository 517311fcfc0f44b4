/** Subsequences and multiset counting, used by several components. */
module Sequences {
  function Last<T>(xs: seq<T>): T
    requires xs != []
  {
    xs[|xs| - 1]
  }

  function Init<T>(xs: seq<T>): seq<T>
    requires xs != []
  {
    xs[..|xs| - 1]
  }

  /** xs is what is left of ys after deleting some (or none, or all) of its elements. */
  ghost predicate Embeds<T(!new)>(xs: seq<T>, ys: seq<T>)
    decreases |ys|
  {
    if xs == [] then true
    else if ys == [] then false
    else Embeds(xs, Init(ys)) || (Last(xs) == Last(ys) && Embeds(Init(xs), Init(ys)))
  }

  ghost predicate StrictlyIncreasing(xs: seq<int>) {
    forall i, j :: 0 <= i < j < |xs| ==> xs[i] < xs[j]
  }

  /** Deleting elements from xs deletes its last element or keeps it. */
  lemma {:induction false} EmbedsInit<T(!new)>(xs: seq<T>, ys: seq<T>)
    requires xs != [] && Embeds(xs, ys)
    ensures Embeds(Init(xs), ys)
    decreases |ys|
  {
    if Embeds(xs, Init(ys)) {
      EmbedsInit(xs, Init(ys));
    }
  }

  lemma {:induction false} EmbedsSelf<T(!new)>(xs: seq<T>)
    ensures Embeds(xs, xs)
    decreases |xs|
  {
    if xs != [] {
      EmbedsSelf(Init(xs));
    }
  }

  lemma {:induction false} EmbedsMember<T(!new)>(xs: seq<T>, ys: seq<T>, x: T)
    requires Embeds(xs, ys) && x in xs
    ensures x in ys
    decreases |ys|
  {
    if Embeds(xs, Init(ys)) {
      EmbedsMember(xs, Init(ys), x);
    } else if x != Last(xs) {
      EmbedsMember(Init(xs), Init(ys), x);
    }
  }

  lemma {:induction false} EmbedsTransitive<T(!new)>(xs: seq<T>, ys: seq<T>, zs: seq<T>)
    requires Embeds(xs, ys) && Embeds(ys, zs)
    ensures Embeds(xs, zs)
    decreases |zs|
  {
    if xs != [] {
      if Embeds(ys, Init(zs)) {
        EmbedsTransitive(xs, ys, Init(zs));
      } else if Embeds(xs, Init(ys)) {
        EmbedsTransitive(xs, Init(ys), Init(zs));
      } else {
        EmbedsTransitive(Init(xs), Init(ys), Init(zs));
      }
    }
  }

  lemma {:induction false} EmbedsIncreasing(xs: seq<int>, ys: seq<int>)
    requires Embeds(xs, ys) && StrictlyIncreasing(ys)
    ensures StrictlyIncreasing(xs)
    decreases |ys|
  {
    if xs != [] {
      if Embeds(xs, Init(ys)) {
        EmbedsIncreasing(xs, Init(ys));
      } else {
        EmbedsIncreasing(Init(xs), Init(ys));
        forall i | 0 <= i < |xs| - 1 ensures xs[i] < Last(xs) {
          assert xs[i] in Init(xs);
          EmbedsMember(Init(xs), Init(ys), xs[i]);
        }
      }
    }
  }

  /** An element that occurs at exactly one position has multiplicity one. */
  lemma {:induction false} CountOnce<T>(xs: seq<T>, k: nat)
    requires k < |xs|
    requires forall i :: 0 <= i < |xs| && i != k ==> xs[i] != xs[k]
    ensures multiset(xs)[xs[k]] == 1
  {
    assert xs == xs[..k] + [xs[k]] + xs[k + 1..];
    assert xs[k] !in xs[..k] && xs[k] !in xs[k + 1..];
  }

  /** An element that occurs at two positions has multiplicity at least two. */
  lemma {:induction false} CountTwice<T>(xs: seq<T>, i: nat, j: nat)
    requires i < j < |xs| && xs[i] == xs[j]
    ensures multiset(xs)[xs[i]] >= 2
  {
    assert xs == xs[..i] + [xs[i]] + xs[i + 1..j] + [xs[j]] + xs[j + 1..];
  }
}
