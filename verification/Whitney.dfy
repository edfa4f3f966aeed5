/**
 Whitney's formula: over any field, the characteristic polynomial is a signed sum
 over the sub-arrangements with a common point.
 */
module Whitney {
  import opened Arrangements
  import opened CharPoly
  import opened Fields
  import opened Hyperplanes
  import opened Powers
  import opened Pruning
  import opened Spans
  import opened Wrappers

  // ----- The sum over sub-arrangements -----

  function Prefixed<X>(h: X, Bs: seq<seq<X>>): (r: seq<seq<X>>)
    ensures |r| == |Bs|
  {
    seq(|Bs|, i requires 0 <= i < |Bs| => [h] + Bs[i])
  }

  /** Every sub-list, once for each choice of positions. */
  function Sublists<X>(A: seq<X>): seq<seq<X>> {
    if A == [] then [[]] else Sublists(A[1..]) + Prefixed(A[0], Sublists(A[1..]))
  }

  /** The sum over `Bs` of (-1)^|B| t(B). */
  ghost function SignedSum<X>(Bs: seq<seq<X>>, t: seq<X> -> int): int {
    if Bs == [] then 0
    else (if |Bs[0]| % 2 == 0 then t(Bs[0]) else -t(Bs[0])) + SignedSum(Bs[1..], t)
  }

  /** How many forms of `B` are independent of those before and of `U`; nothing if some form
      excludes every point. */
  ghost function Codim<T(!new)>(F: Field<T>, B: seq<Form<T>>, U: iset<Form<T>>): Option<nat>
    decreases |B|
  {
    if B == [] then Some(0)
    else if B[0] in U then Codim(F, B[1..], U)
    else if B[0] in Joined(F, U, OneForm(F, |B[0].normal|)) then None
    else OneMore(Codim(F, B[1..], Joined(F, U, B[0])))
  }

  lemma CodimCons<T(!new)>(F: Field<T>, h: Form<T>, B: seq<Form<T>>, U: iset<Form<T>>)
    ensures Codim(F, [h] + B, U) ==
            if h in U then Codim(F, B, U)
            else if h in Joined(F, U, OneForm(F, |h.normal|)) then None
            else OneMore(Codim(F, B, Joined(F, U, h)))
  {
  }

  function OneMore(r: Option<nat>): Option<nat> {
    match r
    case None => None
    case Some(n) => Some(n + 1)
  }

  ghost function Term<T(!new)>(F: Field<T>, U: iset<Form<T>>, d: int, q: int): seq<Form<T>> -> int {
    (B: seq<Form<T>>) => match Codim(F, B, U) case None => 0 case Some(r) => PowerOrNone(q, d - r)
  }

  lemma TermCons<T(!new)>(F: Field<T>, h: Form<T>, B: seq<Form<T>>, U: iset<Form<T>>, d: int, q: int)
    ensures Term(F, U, d, q)([h] + B) ==
            if h in U then Term(F, U, d, q)(B)
            else if h in Joined(F, U, OneForm(F, |h.normal|)) then 0
            else Term(F, Joined(F, U, h), d - 1, q)(B)
  {
  }

  lemma {:induction false} SumConcat<X>(Bs: seq<seq<X>>, Cs: seq<seq<X>>, t: seq<X> -> int)
    ensures SignedSum(Bs + Cs, t) == SignedSum(Bs, t) + SignedSum(Cs, t)
    decreases |Bs|
  {
    if Bs == [] {
      assert Bs + Cs == Cs;
    } else {
      assert (Bs + Cs)[1..] == Bs[1..] + Cs;
      SumConcat(Bs[1..], Cs, t);
    }
  }

  /** One more form in front turns the sign, and the terms into `u`. */
  lemma {:induction false} SumPrefixed<X>(h: X, Bs: seq<seq<X>>, t: seq<X> -> int, u: seq<X> -> int)
    requires forall B {:trigger u(B)} :: t([h] + B) == u(B)
    ensures SignedSum(Prefixed(h, Bs), t) == -SignedSum(Bs, u)
    decreases |Bs|
  {
    if Bs != [] {
      assert Prefixed(h, Bs)[0] == [h] + Bs[0] && |[h] + Bs[0]| == |Bs[0]| + 1;
      assert t([h] + Bs[0]) == u(Bs[0]);
      assert Prefixed(h, Bs)[1..] == Prefixed(h, Bs[1..]);
      SumPrefixed(h, Bs[1..], t, u);
    }
  }

  lemma {:induction false} SumSame<X>(Bs: seq<seq<X>>, t: seq<X> -> int, u: seq<X> -> int)
    requires forall B :: B in Bs ==> t(B) == u(B)
    ensures SignedSum(Bs, t) == SignedSum(Bs, u)
    decreases |Bs|
  {
    if Bs != [] {
      assert Bs[0] in Bs;
      SumSame(Bs[1..], t, u);
    }
  }

  lemma {:induction false} SumOfNone<X>(Bs: seq<seq<X>>)
    ensures SignedSum(Bs, (B: seq<X>) => 0) == 0
    decreases |Bs|
  {
    if Bs != [] {
      SumOfNone(Bs[1..]);
    }
  }

  /** What the terms with `h` in front add up to. */
  lemma SumWithFirst<T(!new)>(F: Field<T>, h: Form<T>, Bs: seq<seq<Form<T>>>, U: iset<Form<T>>, d: int, q: int)
    ensures SignedSum(Prefixed(h, Bs), Term(F, U, d, q)) ==
            if h in U then -SignedSum(Bs, Term(F, U, d, q))
            else if h in Joined(F, U, OneForm(F, |h.normal|)) then 0
            else -SignedSum(Bs, Term(F, Joined(F, U, h), d - 1, q))
  {
    forall B
      ensures Term(F, U, d, q)([h] + B) ==
              if h in U then Term(F, U, d, q)(B)
              else if h in Joined(F, U, OneForm(F, |h.normal|)) then 0
              else Term(F, Joined(F, U, h), d - 1, q)(B)
    {
      TermCons(F, h, B, U, d, q);
    }
    if h in U {
      SumPrefixed(h, Bs, Term(F, U, d, q), Term(F, U, d, q));
    } else if h in Joined(F, U, OneForm(F, |h.normal|)) {
      SumPrefixed(h, Bs, Term(F, U, d, q), (B: seq<Form<T>>) => 0);
      SumOfNone(Bs);
    } else {
      SumPrefixed(h, Bs, Term(F, U, d, q), Term(F, Joined(F, U, h), d - 1, q));
    }
  }

  lemma {:induction false} PrunedIsSum<T(!new)>(F: Field<T>, A: seq<Form<T>>, U: iset<Form<T>>, d: int, q: int)
    ensures Pruned(F, A, U, d, q) == SignedSum(Sublists(A), Term(F, U, d, q))
    decreases |A|
  {
    if A == [] {
      assert Sublists(A) == [[]] && Sublists(A)[1..] == [];
    } else {
      var Bs := Sublists(A[1..]);
      PrunedIsSum(F, A[1..], U, d, q);
      PrunedIsSum(F, A[1..], Joined(F, U, A[0]), d - 1, q);
      SumConcat(Bs, Prefixed(A[0], Bs), Term(F, U, d, q));
      SumWithFirst(F, A[0], Bs, U, d, q);
    }
  }

  // ----- What the terms mean -----

  ghost predicate IsCommonPoint<T(!new)>(F: Field<T>, B: seq<Form<T>>, x: Vec<T>) {
    forall h :: h in B ==> |h.normal| == |x| && Val(F, h, x) == F.zero
  }

  ghost predicate HaveCommonPoint<T(!new)>(F: Field<T>, B: seq<Form<T>>, n: nat) {
    exists x :: |x| == n && IsCommonPoint(F, B, x)
  }

  /** The rank of forms that meet: how many are independent of those before. */
  ghost function Rank<T(!new)>(F: Field<T>, B: seq<Form<T>>, n: nat): nat {
    match Codim(F, B, OnlyZero(F, n)) case None => 0 case Some(r) => r
  }

  ghost predicate VanishAt<T(!new)>(F: Field<T>, U: iset<Form<T>>, x: Vec<T>) {
    forall h :: h in U ==> |h.normal| == |x| && Val(F, h, x) == F.zero
  }

  lemma ConstantsValue<T(!new)>(F: Field<T>, x: Vec<T>)
    requires IsField(F)
    ensures Val(F, ZeroForm(F, |x|), x) == F.zero && Val(F, OneForm(F, |x|), x) == F.one
  {
    DotOfZeros(F, Zeros(F, |x|), x);
    At(F, F.zero, F.one, F.one);
    At(F, F.one, F.zero, F.zero);
    At(F, F.zero, F.zero, F.zero);
  }

  lemma JoinedVanish<T(!new)>(F: Field<T>, U: iset<Form<T>>, k: Form<T>, x: Vec<T>)
    requires IsField(F) && VanishAt(F, U, x) && |k.normal| == |x| && Val(F, k, x) == F.zero
    ensures VanishAt(F, Joined(F, U, k), x)
  {
    forall h | h in Joined(F, U, k)
      ensures Val(F, h, x) == F.zero
    {
      var c :| Minus(F, h, c, k) in U;
      ValMinus(F, h, c, k, x);
      SubZero(F, Val(F, h, x), c);
    }
  }

  /** Where all of `U` vanishes, a form that differs from `U` by a constant and vanishes too is in `U`. */
  lemma NotExcluded<T(!new)>(F: Field<T>, U: iset<Form<T>>, h: Form<T>, x: Vec<T>)
    requires IsField(F) && VanishAt(F, U, x) && |h.normal| == |x| && Val(F, h, x) == F.zero
    requires h in Joined(F, U, OneForm(F, |x|))
    ensures h in U
  {
    var e := OneForm(F, |x|);
    var c :| Minus(F, h, c, e) in U;
    ValMinus(F, h, c, e, x);
    ConstantsValue(F, x);
    At(F, c, F.one, F.one);
    SubIsZero(F, F.zero, c);
    MinusNone(F, h, e);
  }

  lemma {:induction false} PointGivesCodim<T(!new)>(F: Field<T>, B: seq<Form<T>>, U: iset<Form<T>>, x: Vec<T>)
    requires IsField(F) && VanishAt(F, U, x) && IsCommonPoint(F, B, x)
    ensures Codim(F, B, U).Some?
    decreases |B|
  {
    if B != [] {
      var h := B[0];
      assert h in B;
      JoinedVanish(F, U, h, x);
      PointGivesCodim(F, B[1..], U, x);
      PointGivesCodim(F, B[1..], Joined(F, U, h), x);
      if h in Joined(F, U, OneForm(F, |x|)) {
        NotExcluded(F, U, h, x);
      }
    }
  }

  lemma {:induction false} CodimCorresponds<T(!new)>(F: Field<T>, n: nat, m: nat, f: Form<T> -> Form<T>,
                                                     A: seq<Form<T>>, U: iset<Form<T>>, V: iset<Form<T>>)
    requires IsLinear(F, n, m, f) && Corresponds(n, f, U, V) && AllForms(A, n)
    ensures Codim(F, A, U) == Codim(F, MapForms(f, A), V)
    decreases |A|
  {
    if A != [] {
      var h := A[0];
      FirstCorresponds(F, n, m, f, A, U, V);
      CodimCons(F, h, A[1..], U);
      CodimCons(F, f(h), MapForms(f, A[1..]), V);
      assert A == [h] + A[1..];
      CodimCorresponds(F, n, m, f, A[1..], U, V);
      CodimCorresponds(F, n, m, f, A[1..], Joined(F, U, h), Joined(F, V, f(h)));
    }
  }

  /** A form that is independent of the constants has a coefficient. */
  lemma IndependentHasPivot<T(!new)>(F: Field<T>, n: nat, h: Form<T>)
    requires IsField(F) && |h.normal| == n && h !in Joined(F, OnlyZero(F, n), OneForm(F, n))
    ensures NonZero(F, h.normal)
  {
    if AllZero(F, h.normal) {
      assert h.normal == Zeros(F, n);
      if h.b == F.zero {
        OnlyZeroSpace(F, n);
        JoinedSpace(F, OnlyZero(F, n), n, OneForm(F, n));
      } else {
        ConstantIsMultiple(F, h);
        OnlyZeroSpace(F, n);
        JoinedSpace(F, OnlyZero(F, n), n, OneForm(F, n));
        MultipleInside(F, Joined(F, OnlyZero(F, n), OneForm(F, n)), n, h, OneForm(F, n));
      }
      assert false;
    }
  }

  lemma LiftedCommonPoint<T(!new)>(F: Field<T>, k: Form<T>, p: nat, A: seq<Form<T>>, y: Vec<T>)
    requires IsField(F) && IsPivot(F, k, p) && AllForms(A, |k.normal|) && |y| + 1 == |k.normal|
    requires IsCommonPoint(F, Reductions(F, k, p, A), y)
    ensures IsCommonPoint(F, [k] + A, Lift(F, k, p, y))
  {
    var x := Lift(F, k, p, y);
    OnExactlyIfLifted(F, k, p, x);
    forall h | h in A
      ensures Val(F, h, x) == F.zero
    {
      var i :| 0 <= i < |A| && A[i] == h;
      assert Reductions(F, k, p, A)[i] == Reduced(F, h, k, p);
      ReducedKeepsValue(F, h, k, p, x);
    }
  }

  lemma CodimOfReductions<T(!new)>(F: Field<T>, h: Form<T>, p: nat, B: seq<Form<T>>)
    requires IsField(F) && IsPivot(F, h, p) && AllForms(B, |h.normal|)
    ensures var n := |h.normal|;
            Codim(F, [h] + B, OnlyZero(F, n)) == OneMore(Codim(F, Reductions(F, h, p, B), OnlyZero(F, n - 1)))
  {
    var n := |h.normal|;
    assert NonZero(F, h.normal);
    HyperplaneIsIndependent(F, n, h);
    ReducingIsLinear(F, h, p);
    ReducingCorresponds(F, h, p);
    CodimCorresponds(F, n, n - 1, Reducing(F, h, p), B, Joined(F, OnlyZero(F, n), h), OnlyZero(F, n - 1));
    CodimCons(F, h, B, OnlyZero(F, n));
  }

  lemma CommonPointOfMore<T(!new)>(F: Field<T>, h: Form<T>, p: nat, B: seq<Form<T>>)
    requires IsField(F) && IsPivot(F, h, p) && AllForms(B, |h.normal|)
    requires HaveCommonPoint(F, Reductions(F, h, p, B), |h.normal| - 1)
    ensures HaveCommonPoint(F, [h] + B, |h.normal|)
  {
    var y :| |y| == |h.normal| - 1 && IsCommonPoint(F, Reductions(F, h, p, B), y);
    LiftedCommonPoint(F, h, p, B, y);
  }

  lemma ZeroIsEverywhere<T(!new)>(F: Field<T>, n: nat, B: seq<Form<T>>)
    requires IsField(F) && HaveCommonPoint(F, B, n)
    ensures HaveCommonPoint(F, [ZeroForm(F, n)] + B, n)
  {
    var x :| |x| == n && IsCommonPoint(F, B, x);
    ConstantsValue(F, x);
    assert IsCommonPoint(F, [ZeroForm(F, n)] + B, x);
  }

  lemma NoFormsMeet<T(!new)>(F: Field<T>, n: nat)
    ensures HaveCommonPoint(F, [], n)
  {
    assert |Zeros(F, n)| == n && IsCommonPoint(F, [], Zeros(F, n));
  }

  lemma {:induction false} CodimGivesPoint<T(!new)>(F: Field<T>, B: seq<Form<T>>, n: nat)
    requires IsField(F) && AllForms(B, n) && Codim(F, B, OnlyZero(F, n)).Some?
    ensures HaveCommonPoint(F, B, n) && Codim(F, B, OnlyZero(F, n)).value <= n
    decreases |B|
  {
    if B == [] {
      NoFormsMeet(F, n);
    } else {
      var h, rest := B[0], B[1..];
      assert h in B && B == [h] + rest;
      CodimCons(F, h, rest, OnlyZero(F, n));
      if h == ZeroForm(F, n) {
        CodimGivesPoint(F, rest, n);
        ZeroIsEverywhere(F, n, rest);
      } else {
        IndependentHasPivot(F, n, h);
        var p := Pivot(F, h);
        CodimOfReductions(F, h, p, rest);
        CodimGivesPoint(F, Reductions(F, h, p, rest), n - 1);
        CommonPointOfMore(F, h, p, rest);
      }
    }
  }

  /** Forms have a common point exactly if none excludes every point once those before vanish;
      then at most `n` of them are independent. */
  lemma CodimMeans<T(!new)>(F: Field<T>, B: seq<Form<T>>, n: nat)
    requires IsField(F) && AllForms(B, n)
    ensures Codim(F, B, OnlyZero(F, n)).Some? <==> HaveCommonPoint(F, B, n)
    ensures Rank(F, B, n) <= n
  {
    if HaveCommonPoint(F, B, n) {
      var x :| |x| == n && IsCommonPoint(F, B, x);
      ConstantsValue(F, x);
      PointGivesCodim(F, B, OnlyZero(F, n), x);
    }
    if Codim(F, B, OnlyZero(F, n)).Some? {
      CodimGivesPoint(F, B, n);
    }
  }

  /** q to the dimension of what the hyperplanes of `B` have in common, if anything. */
  ghost function Share<T(!new)>(F: Field<T>, n: nat, q: int): seq<Form<T>> -> int {
    (B: seq<Form<T>>) => if HaveCommonPoint(F, B, n) then PowerOrNone(q, n - Rank(F, B, n)) else 0
  }

  lemma TermIsShare<T(!new)>(F: Field<T>, B: seq<Form<T>>, n: nat, q: int)
    requires IsField(F) && AllForms(B, n)
    ensures Term(F, OnlyZero(F, n), n, q)(B) == Share(F, n, q)(B)
  {
    CodimMeans(F, B, n);
  }

  /** The sum over all sub-arrangements B with a common point of (-1)^|B| q^(n - rank B). */
  ghost function WhitneySum<T(!new)>(F: Field<T>, A: seq<Form<T>>, n: nat, q: int): int {
    SignedSum(Sublists(A), Share(F, n, q))
  }

  lemma {:induction false} SublistsInside<X>(A: seq<X>, B: seq<X>)
    requires B in Sublists(A)
    ensures forall b :: b in B ==> b in A
    decreases |A|
  {
    if A != [] {
      var Bs := Sublists(A[1..]);
      if B in Bs {
        SublistsInside(A[1..], B);
      } else {
        var i :| 0 <= i < |Bs| && B == Prefixed(A[0], Bs)[i];
        SublistsInside(A[1..], Bs[i]);
      }
    }
  }

  lemma PrunedIsWhitney<T(!new)>(F: Field<T>, A: seq<Form<T>>, n: nat, q: int)
    requires IsField(F) && AllForms(A, n)
    ensures Pruned(F, A, OnlyZero(F, n), n, q) == WhitneySum(F, A, n, q)
  {
    PrunedIsSum(F, A, OnlyZero(F, n), n, q);
    forall B | B in Sublists(A)
      ensures Term(F, OnlyZero(F, n), n, q)(B) == Share(F, n, q)(B)
    {
      SublistsInside(A, B);
      TermIsShare(F, B, n, q);
    }
    SumSame(Sublists(A), Term(F, OnlyZero(F, n), n, q), Share(F, n, q));
  }

  /** Whitney's theorem: over any field and at every q, the characteristic polynomial of a
      non-empty arrangement, computed by deletion and restriction, is the signed sum over its
      sub-arrangements. */
  lemma CharPolyIsWhitney<T(!new)>(F: Field<T>, A: seq<Form<T>>, n: nat, q: int)
    requires IsField(F) && IsArrangement(F, A, n) && A != []
    ensures CharPolyAt(F, A, n, q) == WhitneySum(F, A, n, q)
  {
    FormsOf(F, A, n);
    CharPolyIsPruned(F, A, n, q);
    PrunedIsWhitney(F, A, n, q);
  }

  /** Of the empty arrangement the sum is q^n, and the recursion answers 1. */
  lemma CharPolyIsWhitneyExactlyWhen<T(!new)>(F: Field<T>, A: seq<Form<T>>, n: nat)
    requires IsField(F) && IsArrangement(F, A, n)
    ensures (forall q {:trigger WhitneySum(F, A, n, q)} :: CharPolyAt(F, A, n, q) == WhitneySum(F, A, n, q)) <==>
            A != [] || n == 0
  {
    if A != [] {
      forall q
        ensures CharPolyAt(F, A, n, q) == WhitneySum(F, A, n, q)
      {
        CharPolyIsWhitney(F, A, n, q);
      }
    } else {
      forall q
        ensures CharPolyAt(F, A, n, q) == 1 && WhitneySum(F, A, n, q) == Power(q, n)
      {
        PrunedIsWhitney(F, A, n, q);
      }
      if n > 0 {
        PowerExceedsOne(2, n);
        assert CharPolyAt(F, A, n, 2) != WhitneySum(F, A, n, 2);
      }
    }
  }

  // ----- Choices that do not matter -----

  predicate IsPermutation(order: seq<nat>, n: nat) {
    |order| == n && (forall i :: 0 <= i < n ==> order[i] < n) && (forall j :: 0 <= j < n ==> j in order)
  }

  /** The coordinates of a hyperplane in another order. */
  function Permuted<T>(h: Form<T>, order: seq<nat>): Form<T> {
    Hyperplane(seq(|order|, i requires 0 <= i < |order| => if order[i] < |h.normal| then h.normal[order[i]] else h.b),
               h.b)
  }

  ghost function Permuting<T(!new)>(order: seq<nat>): Form<T> -> Form<T> {
    (h: Form<T>) => Permuted(h, order)
  }

  lemma PermutingIsLinear<T(!new)>(F: Field<T>, n: nat, order: seq<nat>)
    requires IsPermutation(order, n)
    ensures IsLinear(F, n, n, Permuting(order))
    ensures Corresponds(n, Permuting(order), OnlyZero(F, n), OnlyZero(F, n))
  {
    assert Permuted(OneForm(F, n), order) == OneForm(F, n);
    forall h: Form<T>, k: Form<T>, r {:trigger Minus(F, h, r, k)} | |h.normal| == n && |k.normal| == n
      ensures Permuted(Minus(F, h, r, k), order) == Minus(F, Permuted(h, order), r, Permuted(k, order))
    {
    }
    forall h: Form<T> | |h.normal| == n
      ensures h == ZeroForm(F, n) <==> Permuted(h, order) == ZeroForm(F, n)
    {
      if Permuted(h, order) == ZeroForm(F, n) {
        forall j | 0 <= j < n
          ensures h.normal[j] == F.zero
        {
          assert j in order;
          var i :| 0 <= i < n && order[i] == j;
          assert Permuted(h, order).normal[i] == Zeros(F, n)[i];
        }
      }
    }
  }

  /** Over any field and at every q: permuting the coordinates, listing the hyperplanes in
      another order and replacing them by multiples leave the characteristic polynomial as it
      is, whatever pivots, scalars and orders the recursion itself uses on the way. */
  lemma ChoicesDoNotMatter<T(!new)>(F: Field<T>, A: seq<Form<T>>, B: seq<Form<T>>, n: nat, order: seq<nat>, q: int)
    requires IsField(F) && IsArrangement(F, A, n) && IsArrangement(F, B, n) && IsPermutation(order, n)
    requires SameHyperplanes(F, B, MapForms(Permuting(order), A))
    ensures CharPolyAt(F, A, n, q) == CharPolyAt(F, B, n, q)
  {
    var C := MapForms(Permuting(order), A);
    if A == [] {
      if B != [] {
        SomeForSome(F, B, C);
      }
    } else {
      assert C[0] in C;
      assert StoodFor(F, B, C[0]);
      FormsOf(F, A, n);
      FormsOf(F, B, n);
      CharPolyIsPruned(F, A, n, q);
      CharPolyIsPruned(F, B, n, q);
      PermutingIsLinear(F, n, order);
      PrunedCorresponds(F, n, n, Permuting(order), A, OnlyZero(F, n), OnlyZero(F, n), n, q);
      OnlyZeroSpace(F, n);
      PrunedOfSame(F, n, C, B, OnlyZero(F, n), n, q);
    }
  }
}
