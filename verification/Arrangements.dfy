/**
 Hyperplane arrangements over a field: deletion, restriction, and what the two
 leave of the points.
 */
module Arrangements {
  import opened Fields
  import opened Hyperplanes
  import opened Sequences
  import opened Wrappers

  ghost predicate NonZero<T>(F: Field<T>, a: Vec<T>) {
    exists i :: 0 <= i < |a| && a[i] != F.zero
  }

  ghost predicate Unrelated<T(!new)>(F: Field<T>, A: seq<Hyperplane<T>>) {
    forall i, j :: 0 <= i < |A| && 0 <= j < |A| && i != j ==> !Proportional(F, A[i], A[j])
  }

  ghost predicate AllHyperplanes<T>(F: Field<T>, A: seq<Hyperplane<T>>, n: nat) {
    forall i :: 0 <= i < |A| ==> |A[i].normal| == n && NonZero(F, A[i].normal)
  }

  /** What the constructor guarantees: non-constant hyperplanes of one dimension, no two of
      them the same up to a scalar. */
  ghost predicate IsArrangement<T(!new)>(F: Field<T>, A: seq<Hyperplane<T>>, n: nat) {
    AllHyperplanes(F, A, n) && Unrelated(F, A)
  }

  ghost predicate Off<T>(F: Field<T>, A: seq<Hyperplane<T>>, x: Vec<T>)
    requires forall h :: h in A ==> |h.normal| == |x|
  {
    forall h :: h in A ==> Val(F, h, x) != F.zero
  }

  // ----- Deletion -----

  function Without<T(==)>(A: seq<Hyperplane<T>>, h: Hyperplane<T>): (r: seq<Hyperplane<T>>)
    ensures h in A ==> |r| == |A| - 1
    ensures h !in A ==> r == A
  {
    if A == [] then [] else if A[0] == h then A[1..] else [A[0]] + Without(A[1..], h)
  }

  lemma {:induction false} WithoutRemoves<T>(A: seq<Hyperplane<T>>, h: Hyperplane<T>)
    requires Distinct(A)
    ensures Distinct(Without(A, h))
    ensures forall g :: g in Without(A, h) <==> g in A && g != h
  {
    if A != [] {
      WithoutRemoves(A[1..], h);
      assert A[0] !in A[1..];
      assert forall g :: g in A <==> g == A[0] || g in A[1..];
    }
  }

  /** Removes the given hyperplanes; an error if one of them is not there. */
  method Deletion<T(==)>(A: seq<Hyperplane<T>>, hs: seq<Hyperplane<T>>) returns (r: Option<seq<Hyperplane<T>>>)
    requires Distinct(A) && Distinct(hs)
    ensures r.Some? <==> forall h :: h in hs ==> h in A
    ensures r.Some? ==> Distinct(r.value) && forall g :: g in r.value <==> g in A && g !in hs
    ensures r.Some? ==> |r.value| == |A| - |hs|
  {
    var planes := A;
    for i := 0 to |hs|
      invariant Distinct(planes) && |planes| == |A| - i
      invariant forall g :: g in planes <==> g in A && g !in hs[..i]
      invariant forall h :: h in hs[..i] ==> h in A
    {
      assert hs[i] !in hs[..i];
      assert hs[..i + 1] == hs[..i] + [hs[i]];
      if hs[i] !in planes {
        assert hs[i] in hs;
        return None;
      }
      WithoutRemoves(planes, hs[i]);
      planes := Without(planes, hs[i]);
    }
    assert hs[..|hs|] == hs;
    return Some(planes);
  }

  // ----- Restriction -----

  predicate AllZero<T(==)>(F: Field<T>, a: Vec<T>) {
    forall i :: 0 <= i < |a| ==> a[i] == F.zero
  }

  /** The reduced hyperplanes in order, the constant ones left out. */
  function Restricted<T(==)>(F: Field<T>, A: seq<Hyperplane<T>>, k: Hyperplane<T>, p: nat): seq<Hyperplane<T>>
    requires p < |k.normal| && forall h :: h in A ==> |h.normal| == |k.normal|
  {
    if A == [] then []
    else
      var g := Reduced(F, A[0], k, p);
      (if AllZero(F, g.normal) then [] else [g]) + Restricted(F, A[1..], k, p)
  }

  lemma {:induction false} RestrictedAppend<T>(F: Field<T>, A: seq<Hyperplane<T>>, h: Hyperplane<T>,
                                               k: Hyperplane<T>, p: nat)
    requires p < |k.normal| == |h.normal| && forall g :: g in A ==> |g.normal| == |k.normal|
    ensures Restricted(F, A + [h], k, p) == Restricted(F, A, k, p) + Restricted(F, [h], k, p)
  {
    if A == [] {
      assert [] + [h] == [h];
    } else {
      assert (A + [h])[1..] == A[1..] + [h];
      RestrictedAppend(F, A[1..], h, k, p);
    }
  }

  /** The loop of `restriction`; an error if the hyperplane is not in the arrangement.  The
      list still has to go through the arrangement constructor. */
  method Restriction<T(==)>(F: Field<T>, A: seq<Hyperplane<T>>, k: Hyperplane<T>, p: nat)
    returns (r: Option<seq<Hyperplane<T>>>)
    requires p < |k.normal| && forall h :: h in A ==> |h.normal| == |k.normal|
    ensures r == if k in A then Some(Restricted(F, A, k, p)) else None
  {
    if k !in A {
      return None;
    }
    var hyperplanes: seq<Hyperplane<T>> := [];
    for i := 0 to |A|
      invariant hyperplanes == Restricted(F, A[..i], k, p)
    {
      assert A[i] in A;
      var rescale := Rescale(F, A[i], k, p);
      var h := Minus(F, A[i], rescale, k);
      var normal := Drop(h.normal, p);
      assert A[..i + 1] == A[..i] + [A[i]];
      RestrictedAppend(F, A[..i], A[i], k, p);
      if !AllZero(F, normal) {
        hyperplanes := hyperplanes + [Hyperplane(normal, h.b)];
      }
    }
    assert A[..|A|] == A;
    return Some(hyperplanes);
  }

  lemma {:induction false} InRestricted<T>(F: Field<T>, A: seq<Hyperplane<T>>, k: Hyperplane<T>, p: nat,
                                           g: Hyperplane<T>)
    requires p < |k.normal| && forall h :: h in A ==> |h.normal| == |k.normal|
    ensures g in Restricted(F, A, k, p) <==>
            exists h :: h in A && g == Reduced(F, h, k, p) && !AllZero(F, g.normal)
  {
    if A != [] {
      InRestricted(F, A[1..], k, p, g);
      assert forall h :: h in A <==> h == A[0] || h in A[1..];
    }
  }

  lemma {:induction false} RestrictedIsShorter<T>(F: Field<T>, A: seq<Hyperplane<T>>, k: Hyperplane<T>, p: nat)
    requires p < |k.normal| && forall h :: h in A ==> |h.normal| == |k.normal|
    ensures |Restricted(F, A, k, p)| <= |A|
  {
    if A != [] {
      RestrictedIsShorter(F, A[1..], k, p);
    }
  }

  /** A vector with every coefficient zero gives the constant. */
  lemma {:induction false} DotOfZeros<T(!new)>(F: Field<T>, a: Vec<T>, x: Vec<T>)
    requires IsField(F) && |a| == |x| && AllZero(F, a)
    ensures Dot(F, a, x) == F.zero
    decreases |a|
  {
    if a != [] {
      DotOfZeros(F, a[1..], x[1..]);
      MulZero(F, x[0]);
      At(F, F.zero, F.zero, F.zero);
    }
  }

  /** A hyperplane vanishes on reduction, constant and all, only if it is proportional. */
  lemma VanishesOnlyIfProportional<T(!new)>(F: Field<T>, h: Hyperplane<T>, k: Hyperplane<T>, p: nat)
    requires IsField(F) && |h.normal| == |k.normal| && IsPivot(F, k, p) && NonZero(F, h.normal)
    requires AllZero(F, Reduced(F, h, k, p).normal) && Reduced(F, h, k, p).b == F.zero
    ensures Proportional(F, h, k)
  {
    var r := Rescale(F, h, k, p);
    var m := Minus(F, h, r, k);
    Eliminates(F, h.normal[p], k.normal[p]);
    forall i | 0 <= i < |h.normal|
      ensures h.normal[i] == F.mul(r, k.normal[i])
    {
      if i < p {
        assert Drop(m.normal, p)[i] == m.normal[i];
      } else if i > p {
        assert Drop(m.normal, p)[i - 1] == m.normal[i];
      }
      assert m.normal[i] == F.zero;
      SubIsZero(F, h.normal[i], F.mul(r, k.normal[i]));
    }
    SubIsZero(F, h.b, F.mul(r, k.b));
    assert h == Times(F, r, k);
    if r == F.zero {
      var i :| 0 <= i < |h.normal| && h.normal[i] != F.zero;
      MulZero(F, k.normal[i]);
    }
  }

  lemma SelfVanishes<T(!new)>(F: Field<T>, k: Hyperplane<T>, p: nat)
    requires IsField(F) && IsPivot(F, k, p)
    ensures AllZero(F, Reduced(F, k, k, p).normal)
  {
    var r := Rescale(F, k, k, p);
    At(F, k.normal[p], F.inv(k.normal[p]), F.one);
    assert r == F.one;
    forall i | 0 <= i < |k.normal|
      ensures Sub(F, k.normal[i], F.mul(r, k.normal[i])) == F.zero
    {
      At(F, F.one, k.normal[i], F.one);
      At(F, k.normal[i], F.one, F.one);
    }
  }

  /** A point of `k` misses `h` exactly if what is left of it misses `h` reduced, and a
      reduction that is constant is missed by every point. */
  lemma ReducedMissed<T(!new)>(F: Field<T>, h: Hyperplane<T>, k: Hyperplane<T>, p: nat, x: Vec<T>)
    requires IsField(F) && |h.normal| == |k.normal| == |x| && IsPivot(F, k, p) && Val(F, k, x) == F.zero
    requires NonZero(F, h.normal) && !Proportional(F, h, k)
    ensures var g := Reduced(F, h, k, p);
            if AllZero(F, g.normal) then Val(F, h, x) != F.zero
            else (Val(F, h, x) != F.zero <==> Val(F, g, Drop(x, p)) != F.zero)
  {
    var g := Reduced(F, h, k, p);
    ReducedKeepsValue(F, h, k, p, x);
    if AllZero(F, g.normal) {
      DotOfZeros(F, g.normal, Drop(x, p));
      At(F, F.zero, g.b, g.b);
      At(F, g.b, F.zero, g.b);
      if g.b == F.zero {
        VanishesOnlyIfProportional(F, h, k, p);
      }
    }
  }

  lemma RestMembers<T(!new)>(F: Field<T>, A: seq<Hyperplane<T>>, n: nat)
    requires IsArrangement(F, A, n) && A != []
    ensures IsArrangement(F, A[1..], n)
    ensures forall h :: h in A[1..] ==> |h.normal| == n && NonZero(F, h.normal) && !Proportional(F, h, A[0])
    ensures forall h :: h in A ==> |h.normal| == n
  {
  }

  lemma RestrictedLengths<T(!new)>(F: Field<T>, A: seq<Hyperplane<T>>, n: nat, p: nat)
    requires IsArrangement(F, A, n) && A != [] && IsPivot(F, A[0], p)
    ensures forall h :: h in A ==> |h.normal| == n
    ensures forall g :: g in Restricted(F, A, A[0], p) ==> |g.normal| == n - 1
  {
    forall g | g in Restricted(F, A, A[0], p)
      ensures |g.normal| == n - 1
    {
      InRestricted(F, A, A[0], p, g);
    }
  }

  /** A point of the first hyperplane that misses the restriction misses the rest... */
  lemma MissesRest<T(!new)>(F: Field<T>, A: seq<Hyperplane<T>>, n: nat, p: nat, x: Vec<T>, h: Hyperplane<T>)
    requires IsField(F) && IsArrangement(F, A, n) && A != [] && IsPivot(F, A[0], p) && |x| == n
    requires forall h :: h in A ==> |h.normal| == n
    requires forall g :: g in Restricted(F, A, A[0], p) ==> |g.normal| == n - 1
    requires Val(F, A[0], x) == F.zero && Off(F, Restricted(F, A, A[0], p), Drop(x, p)) && h in A[1..]
    ensures Val(F, h, x) != F.zero
  {
    RestMembers(F, A, n);
    var g := Reduced(F, h, A[0], p);
    ReducedMissed(F, h, A[0], p, x);
    if !AllZero(F, g.normal) {
      InRestricted(F, A, A[0], p, g);
    }
  }

  /** ...and the other way round. */
  lemma MissesRestricted<T(!new)>(F: Field<T>, A: seq<Hyperplane<T>>, n: nat, p: nat, x: Vec<T>, g: Hyperplane<T>)
    requires IsField(F) && IsArrangement(F, A, n) && A != [] && IsPivot(F, A[0], p) && |x| == n
    requires forall h :: h in A ==> |h.normal| == n
    requires forall h :: h in A[1..] ==> |h.normal| == n
    requires Val(F, A[0], x) == F.zero && Off(F, A[1..], x) && g in Restricted(F, A, A[0], p)
    ensures |g.normal| == n - 1 && Val(F, g, Drop(x, p)) != F.zero
  {
    RestMembers(F, A, n);
    SelfVanishes(F, A[0], p);
    InRestricted(F, A, A[0], p, g);
    var h :| h in A && g == Reduced(F, h, A[0], p) && !AllZero(F, g.normal);
    assert h != A[0];
    assert A == [A[0]] + A[1..];
    ReducedMissed(F, h, A[0], p, x);
  }

  /** Deletion and restriction, point by point: among the points of the first hyperplane,
      those that miss all the others are the lifts of the points that miss the restriction. */
  lemma DeletionRestriction<T(!new)>(F: Field<T>, A: seq<Hyperplane<T>>, n: nat, p: nat, x: Vec<T>)
    requires IsField(F) && IsArrangement(F, A, n) && A != [] && IsPivot(F, A[0], p) && |x| == n
    ensures forall h :: h in A ==> |h.normal| == n
    ensures forall g :: g in Restricted(F, A, A[0], p) ==> |g.normal| == n - 1
    ensures Off(F, A[1..], x) && Val(F, A[0], x) == F.zero <==>
            x == Lift(F, A[0], p, Drop(x, p)) && Off(F, Restricted(F, A, A[0], p), Drop(x, p))
  {
    RestMembers(F, A, n);
    RestrictedLengths(F, A, n, p);
    OnExactlyIfLifted(F, A[0], p, x);
    if Val(F, A[0], x) == F.zero {
      forall h | Off(F, Restricted(F, A, A[0], p), Drop(x, p)) && h in A[1..]
        ensures Val(F, h, x) != F.zero
      {
        MissesRest(F, A, n, p, x, h);
      }
      forall g | Off(F, A[1..], x) && g in Restricted(F, A, A[0], p)
        ensures Val(F, g, Drop(x, p)) != F.zero
      {
        MissesRestricted(F, A, n, p, x, g);
      }
    }
  }
}
