/** Sequence helpers shared by the aggregator, the talk matcher and the scheduler. */
module Seqs {

  datatype Option<+T> = None | Some(value: T)

  function Last<T>(s: seq<T>): T
    requires |s| > 0
  {
    s[|s| - 1]
  }

  /** No element occurs twice: a Python list built as `list(set(...))`. */
  predicate NoDup<T(==)>(s: seq<T>) {
    forall i, j :: 0 <= i < j < |s| ==> s[i] != s[j]
  }

  predicate StrictlyIncreasing(s: seq<int>) {
    forall i, j :: 0 <= i < j < |s| ==> s[i] < s[j]
  }

  /** `list(set(xs))`: every element of `xs` once, here in order of first appearance. */
  function Distinct<T(==,!new)>(xs: seq<T>): (r: seq<T>)
    ensures NoDup(r)
    ensures forall x :: x in r <==> x in xs
  {
    if xs == [] then []
    else
      var prev := Distinct(xs[..|xs| - 1]);
      assert forall x :: x in xs <==> x in xs[..|xs| - 1] || x == Last(xs) by {
        assert xs == xs[..|xs| - 1] + [Last(xs)];
      }
      if Last(xs) in prev then prev else prev + [Last(xs)]
  }

  /** One value is already distinct. */
  lemma DistinctOne<T(!new)>(a: T)
    ensures Distinct([a]) == [a]
  {
    assert [a][..0] == [];
  }

  /** Two different values are already distinct, in their order. */
  lemma DistinctPair<T(!new)>(a: T, b: T)
    requires a != b
    ensures Distinct([a, b]) == [a, b]
  {
    var xs := [a, b];
    assert xs[..1] == [a];
    DistinctOne(a);
  }

  /** The indices at which `flags` holds, in ascending order (a boolean mask's `.index`). */
  function Positions(flags: seq<bool>): (ps: seq<nat>)
    ensures StrictlyIncreasing(ps)
    ensures forall p: int :: p in ps <==> 0 <= p < |flags| && flags[p]
    ensures forall j :: 0 <= j < |ps| ==> ps[j] < |flags|
  {
    if flags == [] then []
    else
      var n := |flags| - 1;
      var prev := Positions(flags[..n]);
      assert forall p: int :: 0 <= p < n ==> flags[..n][p] == flags[p];
      if flags[n] then prev + [n] else prev
  }

  /** The elements of `xs` at the indices `idx`, in the order of `idx`. */
  function Select<T>(xs: seq<T>, idx: seq<nat>): (r: seq<T>)
    requires forall j :: 0 <= j < |idx| ==> idx[j] < |xs|
    ensures |r| == |idx|
    ensures forall j :: 0 <= j < |idx| ==> r[j] == xs[idx[j]]
  {
    seq(|idx|, j requires 0 <= j < |idx| => xs[idx[j]])
  }

  /** Concatenation of a sequence of sequences. */
  function Flatten<T>(gs: seq<seq<T>>): seq<T> {
    if gs == [] then [] else Flatten(gs[..|gs| - 1]) + Last(gs)
  }

  lemma {:induction false} FlattenAppend<T>(a: seq<seq<T>>, b: seq<seq<T>>)
    ensures Flatten(a + b) == Flatten(a) + Flatten(b)
    decreases |b|
  {
    if b == [] {
      assert a + b == a;
    } else {
      var b' := b[..|b| - 1];
      assert (a + b)[..|a + b| - 1] == a + b';
      FlattenAppend(a, b');
    }
  }

  lemma {:induction false} FlattenMember<T>(gs: seq<seq<T>>, x: T)
    ensures x in Flatten(gs) <==> exists a :: 0 <= a < |gs| && x in gs[a]
    decreases |gs|
  {
    if gs != [] {
      var init := gs[..|gs| - 1];
      FlattenMember(init, x);
      if x in Flatten(init) {
        var a :| 0 <= a < |init| && x in init[a];
        assert x in gs[a];
      }
      if exists a :: 0 <= a < |gs| && x in gs[a] {
        var a :| 0 <= a < |gs| && x in gs[a];
        if a < |init| {
          assert x in init[a];
        }
      }
    }
  }

  /** In an increasing sequence, a prefix holds exactly the elements up to its last one. */
  lemma PrefixUpTo(xs: seq<int>, n: nat)
    requires StrictlyIncreasing(xs)
    requires 0 < n <= |xs|
    ensures forall x :: x in xs[..n] <==> x in xs && x <= xs[n - 1]
  {
    forall x | x in xs && x <= xs[n - 1]
      ensures x in xs[..n]
    {
      var i :| 0 <= i < |xs| && xs[i] == x;
      assert xs[..n][i] == x;
    }
    forall x | x in xs[..n]
      ensures x <= xs[n - 1]
    {
      var i :| 0 <= i < n && xs[..n][i] == x;
      assert i == n - 1 || xs[i] < xs[n - 1];
    }
  }
}
