/**
 The recurrence behind the characteristic polynomial, on forms in place of
 coordinates: what setting one more form to zero leaves.  Its value does not depend
 on the order of the hyperplanes, on scalars, on repetitions or on the coordinates,
 and over every field it is what deletion and restriction compute.
 */
module Pruning {
  import opened Arrangements
  import opened CharPoly
  import opened Fields
  import opened Hyperplanes
  import opened Powers
  import opened Spans

  function PowerOrNone(q: int, d: int): int {
    if d < 0 then 0 else Power(q, d)
  }

  /** The sum's recurrence in the first hyperplane, over a space of forms already set to zero:
      without the first, less what the first meets. */
  ghost function Pruned<T(!new)>(F: Field<T>, A: seq<Form<T>>, U: iset<Form<T>>, d: int, q: int): int
    decreases |A|, 0
  {
    if A == [] then PowerOrNone(q, d)
    else Pruned(F, A[1..], U, d, q) - Meeting(F, A[0], A[1..], U, d, q)
  }

  /** The same on the hyperplane `h`: nothing new if it contains all points, nothing at all if
      it contains none, and else one dimension less. */
  ghost function Meeting<T(!new)>(F: Field<T>, h: Form<T>, A: seq<Form<T>>, U: iset<Form<T>>, d: int, q: int): int
    decreases |A|, 1
  {
    if h in U then Pruned(F, A, U, d, q)
    else if h in Joined(F, U, OneForm(F, |h.normal|)) then 0
    else Pruned(F, A, Joined(F, U, h), d - 1, q)
  }

  // ----- The order does not matter -----

  /** What meets both `h` and `k`. */
  ghost function Both<T(!new)>(F: Field<T>, h: Form<T>, k: Form<T>, A: seq<Form<T>>, U: iset<Form<T>>, d: int, q: int)
    : int
  {
    if h in U then Meeting(F, k, A, U, d, q)
    else if h in Joined(F, U, OneForm(F, |h.normal|)) then 0
    else Meeting(F, k, A, Joined(F, U, h), d - 1, q)
  }

  lemma MeetingSplits<T(!new)>(F: Field<T>, h: Form<T>, k: Form<T>, A: seq<Form<T>>, U: iset<Form<T>>, d: int, q: int)
    ensures Meeting(F, h, [k] + A, U, d, q) == Meeting(F, h, A, U, d, q) - Both(F, h, k, A, U, d, q)
  {
  }

  /** A form that says no point is left goes on saying so when an independent one joins. */
  lemma StaysEmpty<T(!new)>(F: Field<T>, U: iset<Form<T>>, n: nat, h: Form<T>, k: Form<T>)
    requires IsField(F) && IsSpace(F, U, n) && |h.normal| == |k.normal| == n
    requires h !in U && h in Joined(F, U, OneForm(F, n)) && k !in Joined(F, U, OneForm(F, n))
    ensures h !in Joined(F, U, k) && h in Joined(F, Joined(F, U, k), OneForm(F, n))
  {
    var e := OneForm(F, n);
    JoinedSpace(F, U, n, k);
    JoinedGrows(F, U, Joined(F, U, k), e);
    if h in Joined(F, U, k) {
      Exchange(F, U, n, h, k);
      Exchange(F, U, n, h, e);
    }
  }

  /** Of two independent forms, either both or neither is dependent on the other... */
  lemma DependTogether<T(!new)>(F: Field<T>, U: iset<Form<T>>, n: nat, h: Form<T>, k: Form<T>)
    requires IsField(F) && IsSpace(F, U, n) && |h.normal| == |k.normal| == n && h !in U && k !in U
    ensures k in Joined(F, U, h) <==> h in Joined(F, U, k)
    ensures k in Joined(F, U, h) ==> Joined(F, U, h) == Joined(F, U, k)
  {
    if k in Joined(F, U, h) {
      Exchange(F, U, n, k, h);
    }
    if h in Joined(F, U, k) {
      Exchange(F, U, n, h, k);
    }
  }

  /** ...and either both or neither excludes the other. */
  lemma ExcludeTogether<T(!new)>(F: Field<T>, U: iset<Form<T>>, n: nat, h: Form<T>, k: Form<T>)
    requires IsField(F) && IsSpace(F, U, n) && |h.normal| == |k.normal| == n
    requires h !in Joined(F, U, OneForm(F, n)) && k !in Joined(F, U, OneForm(F, n))
    ensures k in Joined(F, Joined(F, U, h), OneForm(F, n)) <==> h in Joined(F, Joined(F, U, k), OneForm(F, n))
  {
    var e := OneForm(F, n);
    JoinedSpace(F, U, n, e);
    JoinedCommutes(F, U, h, e);
    JoinedCommutes(F, U, k, e);
    DependTogether(F, Joined(F, U, e), n, h, k);
  }

  lemma BothEmpty<T(!new)>(F: Field<T>, n: nat, h: Form<T>, k: Form<T>, A: seq<Form<T>>, U: iset<Form<T>>,
                           d: int, q: int)
    requires IsField(F) && IsSpace(F, U, n) && |h.normal| == |k.normal| == n
    requires h !in U && h in Joined(F, U, OneForm(F, n))
    ensures Both(F, k, h, A, U, d, q) == 0 == Both(F, h, k, A, U, d, q)
  {
    if k !in U && k !in Joined(F, U, OneForm(F, n)) {
      StaysEmpty(F, U, n, h, k);
    }
  }

  lemma BothInside<T(!new)>(F: Field<T>, n: nat, h: Form<T>, k: Form<T>, A: seq<Form<T>>, U: iset<Form<T>>,
                            d: int, q: int)
    requires IsField(F) && IsSpace(F, U, n) && |h.normal| == |k.normal| == n && h in U
    ensures Both(F, h, k, A, U, d, q) == Both(F, k, h, A, U, d, q)
  {
    JoinedSpace(F, U, n, k);
  }

  lemma BothIndependent<T(!new)>(F: Field<T>, n: nat, h: Form<T>, k: Form<T>, A: seq<Form<T>>, U: iset<Form<T>>,
                                 d: int, q: int)
    requires IsField(F) && IsSpace(F, U, n) && |h.normal| == |k.normal| == n
    requires h !in Joined(F, U, OneForm(F, n)) && k !in Joined(F, U, OneForm(F, n))
    ensures Both(F, h, k, A, U, d, q) == Both(F, k, h, A, U, d, q)
  {
    JoinedSpace(F, U, n, OneForm(F, n));
    DependTogether(F, U, n, h, k);
    ExcludeTogether(F, U, n, h, k);
    JoinedCommutes(F, U, h, k);
  }

  lemma BothIsSymmetric<T(!new)>(F: Field<T>, n: nat, h: Form<T>, k: Form<T>, A: seq<Form<T>>, U: iset<Form<T>>,
                                 d: int, q: int)
    requires IsField(F) && IsSpace(F, U, n) && |h.normal| == |k.normal| == n
    ensures Both(F, h, k, A, U, d, q) == Both(F, k, h, A, U, d, q)
  {
    var e := OneForm(F, n);
    if h in U {
      BothInside(F, n, h, k, A, U, d, q);
    } else if k in U {
      BothInside(F, n, k, h, A, U, d, q);
    } else if h in Joined(F, U, e) {
      BothEmpty(F, n, h, k, A, U, d, q);
    } else if k in Joined(F, U, e) {
      BothEmpty(F, n, k, h, A, U, d, q);
    } else {
      BothIndependent(F, n, h, k, A, U, d, q);
    }
  }

  lemma SwapFirst<T(!new)>(F: Field<T>, n: nat, h: Form<T>, k: Form<T>, A: seq<Form<T>>, U: iset<Form<T>>,
                           d: int, q: int)
    requires IsField(F) && IsSpace(F, U, n) && |h.normal| == |k.normal| == n
    ensures Pruned(F, [h] + ([k] + A), U, d, q) == Pruned(F, [k] + ([h] + A), U, d, q)
  {
    BothIsSymmetric(F, n, h, k, A, U, d, q);
    MeetingSplits(F, h, k, A, U, d, q);
    MeetingSplits(F, k, h, A, U, d, q);
    PrunedCons(F, h, [k] + A, U, d, q);
    PrunedCons(F, k, [h] + A, U, d, q);
    PrunedCons(F, h, A, U, d, q);
    PrunedCons(F, k, A, U, d, q);
  }

  lemma PrunedFirst<T(!new)>(F: Field<T>, A: seq<Form<T>>, U: iset<Form<T>>, d: int, q: int)
    requires A != []
    ensures Pruned(F, A, U, d, q) == Pruned(F, A[1..], U, d, q) - Meeting(F, A[0], A[1..], U, d, q)
  {
  }

  lemma PrunedCons<T(!new)>(F: Field<T>, h: Form<T>, A: seq<Form<T>>, U: iset<Form<T>>, d: int, q: int)
    ensures Pruned(F, [h] + A, U, d, q) == Pruned(F, A, U, d, q) - Meeting(F, h, A, U, d, q)
  {
  }

  ghost predicate AllForms<T>(A: seq<Form<T>>, n: nat) {
    forall h :: h in A ==> |h.normal| == n
  }

  /** The recurrence looks at what follows the first form only through `Pruned`. */
  lemma SameTails<T(!new)>(F: Field<T>, h: Form<T>, A: seq<Form<T>>, B: seq<Form<T>>, U: iset<Form<T>>, d: int, q: int)
    requires Pruned(F, A, U, d, q) == Pruned(F, B, U, d, q)
    requires h !in U && h !in Joined(F, U, OneForm(F, |h.normal|)) ==>
               Pruned(F, A, Joined(F, U, h), d - 1, q) == Pruned(F, B, Joined(F, U, h), d - 1, q)
    ensures Meeting(F, h, A, U, d, q) == Meeting(F, h, B, U, d, q)
    ensures Pruned(F, [h] + A, U, d, q) == Pruned(F, [h] + B, U, d, q)
  {
  }

  lemma MovePast<T(!new)>(F: Field<T>, n: nat, h: Form<T>, g: Form<T>, A: seq<Form<T>>, rest: seq<Form<T>>,
                          U: iset<Form<T>>, d: int, q: int)
    requires IsField(F) && IsSpace(F, U, n) && |h.normal| == |g.normal| == n
    requires Pruned(F, A, U, d, q) == Pruned(F, [g] + rest, U, d, q)
    requires Pruned(F, A, Joined(F, U, h), d - 1, q) == Pruned(F, [g] + rest, Joined(F, U, h), d - 1, q)
    ensures Pruned(F, [h] + A, U, d, q) == Pruned(F, [g] + ([h] + rest), U, d, q)
  {
    SameTails(F, h, A, [g] + rest, U, d, q);
    SwapFirst(F, n, h, g, rest, U, d, q);
  }

  lemma {:induction false} MoveToFront<T(!new)>(F: Field<T>, n: nat, A: seq<Form<T>>, i: nat, U: iset<Form<T>>,
                                                d: int, q: int)
    requires IsField(F) && IsSpace(F, U, n) && AllForms(A, n) && i < |A|
    ensures Pruned(F, A, U, d, q) == Pruned(F, [A[i]] + Drop(A, i), U, d, q)
    decreases i
  {
    if i == 0 {
      assert A == [A[0]] + Drop(A, 0);
    } else {
      var h, g, rest := A[0], A[i], Drop(A[1..], i - 1);
      DropLater(A, i);
      JoinedSpace(F, U, n, h);
      MoveToFront(F, n, A[1..], i - 1, U, d, q);
      MoveToFront(F, n, A[1..], i - 1, Joined(F, U, h), d - 1, q);
      MovePast(F, n, h, g, A[1..], rest, U, d, q);
    }
  }

  lemma DropLater<X>(s: seq<X>, i: nat)
    requires 0 < i < |s|
    ensures s[0] in s && s[i] in s && s[1..][i - 1] == s[i]
    ensures s == [s[0]] + s[1..] && Drop(s, i) == [s[0]] + Drop(s[1..], i - 1)
  {
  }

  // ----- Scalars and repetitions do not matter -----

  lemma ProportionalTransitive<T(!new)>(F: Field<T>, f: Form<T>, g: Form<T>, h: Form<T>)
    requires IsField(F) && Proportional(F, f, g) && Proportional(F, g, h)
    ensures Proportional(F, f, h)
  {
    var c :| c != F.zero && f == Times(F, c, g);
    var d :| d != F.zero && g == Times(F, d, h);
    forall t
      ensures F.mul(c, F.mul(d, t)) == F.mul(F.mul(c, d), t)
    {
      At(F, c, d, t);
    }
    assert f == Times(F, F.mul(c, d), h);
    NoZeroDivisors(F, c, d);
  }

  lemma MultiplesTogether<T(!new)>(F: Field<T>, U: iset<Form<T>>, n: nat, g: Form<T>, h: Form<T>)
    requires IsField(F) && IsSpace(F, U, n) && Proportional(F, g, h)
    ensures g in U <==> h in U
  {
    if g in U {
      ProportionalSymmetric(F, g, h);
      MultipleInside(F, U, n, h, g);
    } else if h in U {
      MultipleInside(F, U, n, g, h);
    }
  }

  lemma MultiplesMeetAlike<T(!new)>(F: Field<T>, n: nat, g: Form<T>, h: Form<T>, A: seq<Form<T>>, U: iset<Form<T>>,
                                    d: int, q: int)
    requires IsField(F) && IsSpace(F, U, n) && Proportional(F, g, h) && |h.normal| == n
    ensures Meeting(F, g, A, U, d, q) == Meeting(F, h, A, U, d, q)
  {
    var e := OneForm(F, n);
    MultiplesTogether(F, U, n, g, h);
    JoinedSpace(F, U, n, e);
    MultiplesTogether(F, Joined(F, U, e), n, g, h);
    if g !in U {
      MultiplesJoinAlike(F, U, n, g, h);
    }
  }

  lemma MultiplesJoinAlike<T(!new)>(F: Field<T>, U: iset<Form<T>>, n: nat, g: Form<T>, h: Form<T>)
    requires IsField(F) && IsSpace(F, U, n) && Proportional(F, g, h) && |h.normal| == n && g !in U
    ensures Joined(F, U, g) == Joined(F, U, h)
  {
    JoinedSpace(F, U, n, h);
    MultipleInside(F, Joined(F, U, h), n, g, h);
    Exchange(F, U, n, g, h);
  }

  lemma RepeatedMeetsNothing<T(!new)>(F: Field<T>, n: nat, g: Form<T>, A: seq<Form<T>>,
                                      U: iset<Form<T>>, d: int, q: int)
    requires IsField(F) && IsSpace(F, U, n) && |g.normal| == n
    ensures Meeting(F, g, [g] + A, U, d, q) == 0
  {
    JoinedSpace(F, U, n, g);
    PrunedCons(F, g, A, U, d, q);
    PrunedCons(F, g, A, Joined(F, U, g), d - 1, q);
  }

  /** A form proportional to a later one may be left out. */
  lemma SkipRepeated<T(!new)>(F: Field<T>, n: nat, h: Form<T>, A: seq<Form<T>>, U: iset<Form<T>>, d: int, q: int)
    requires IsField(F) && IsSpace(F, U, n) && |h.normal| == n && AllForms(A, n) && StoodFor(F, A, h)
    ensures Pruned(F, [h] + A, U, d, q) == Pruned(F, A, U, d, q)
  {
    var g :| g in A && Proportional(F, g, h);
    var i :| 0 <= i < |A| && A[i] == g;
    JoinedSpace(F, U, n, g);
    MoveToFront(F, n, A, i, U, d, q);
    MoveToFront(F, n, A, i, Joined(F, U, g), d - 1, q);
    SameTails(F, g, A, [g] + Drop(A, i), U, d, q);
    RepeatedMeetsNothing(F, n, g, Drop(A, i), U, d, q);
    MultiplesMeetAlike(F, n, g, h, A, U, d, q);
    PrunedCons(F, h, A, U, d, q);
  }

  /** The same hyperplanes, up to scalars. */
  ghost predicate SameHyperplanes<T(!new)>(F: Field<T>, R: seq<Form<T>>, A: seq<Form<T>>) {
    && (forall h {:trigger StoodFor(F, R, h)} :: h in A ==> StoodFor(F, R, h))
    && (forall g {:trigger StandsIn(F, g, A)} :: g in R ==> StandsIn(F, g, A))
  }

  lemma SameWithoutRepeated<T(!new)>(F: Field<T>, R: seq<Form<T>>, h: Form<T>, A: seq<Form<T>>)
    requires IsField(F) && SameHyperplanes(F, R, [h] + A) && StoodFor(F, A, h)
    ensures SameHyperplanes(F, R, A)
  {
    forall k | k in A
      ensures StoodFor(F, R, k)
    {
      assert k in [h] + A;
    }
    var t :| t in A && Proportional(F, t, h);
    ProportionalSymmetric(F, t, h);
    forall g | g in R
      ensures StandsIn(F, g, A)
    {
      assert StandsIn(F, g, [h] + A);
      var k :| k in [h] + A && Proportional(F, g, k);
      if k !in A {
        ProportionalTransitive(F, g, h, t);
      }
    }
  }

  lemma SameWithoutFirst<T(!new)>(F: Field<T>, R: seq<Form<T>>, i: nat, h: Form<T>, A: seq<Form<T>>)
    requires IsField(F) && SameHyperplanes(F, R, [h] + A) && !StoodFor(F, A, h)
    requires Unrelated(F, R) && i < |R| && Proportional(F, R[i], h)
    ensures SameHyperplanes(F, Drop(R, i), A)
  {
    ProportionalSymmetric(F, R[i], h);
    forall t | t in A
      ensures StoodFor(F, Drop(R, i), t)
    {
      assert t in [h] + A;
      assert StoodFor(F, R, t);
      var j :| 0 <= j < |R| && Proportional(F, R[j], t);
      if j == i {
        ProportionalSymmetric(F, R[i], t);
        ProportionalTransitive(F, t, R[i], h);
      } else {
        assert R[j] in Drop(R, i);
      }
    }
    forall g | g in Drop(R, i)
      ensures StandsIn(F, g, A)
    {
      var j :| 0 <= j < |R| && j != i && R[j] == g;
      assert StandsIn(F, g, [h] + A);
      var k :| k in [h] + A && Proportional(F, g, k);
      if k !in A {
        ProportionalTransitive(F, g, h, R[i]);
      }
    }
  }

  lemma DropKeepsUnrelated<T(!new)>(F: Field<T>, R: seq<Form<T>>, i: nat)
    requires Unrelated(F, R) && i < |R|
    ensures Unrelated(F, Drop(R, i))
  {
  }

  lemma SomeForSome<T(!new)>(F: Field<T>, R: seq<Form<T>>, A: seq<Form<T>>)
    requires SameHyperplanes(F, R, A) && R != []
    ensures A != []
  {
    assert StandsIn(F, R[0], A);
  }

  /** The value depends only on which hyperplanes there are: not on their order, on the
      scalars, or on repetitions. */
  lemma {:induction false} PrunedOfSame<T(!new)>(F: Field<T>, n: nat, A: seq<Form<T>>, R: seq<Form<T>>,
                                                 U: iset<Form<T>>,
                                                 d: int, q: int)
    requires IsField(F) && IsSpace(F, U, n) && AllForms(A, n) && AllForms(R, n)
    requires Unrelated(F, R) && SameHyperplanes(F, R, A)
    ensures Pruned(F, A, U, d, q) == Pruned(F, R, U, d, q)
    decreases |A|
  {
    if A == [] {
      if R != [] {
        SomeForSome(F, R, A);
      }
    } else {
      var h, rest := A[0], A[1..];
      assert A == [h] + rest && h in A;
      if StoodFor(F, rest, h) {
        SkipRepeated(F, n, h, rest, U, d, q);
        SameWithoutRepeated(F, R, h, rest);
        PrunedOfSame(F, n, rest, R, U, d, q);
      } else {
        assert StoodFor(F, R, h);
        var i :| 0 <= i < |R| && Proportional(F, R[i], h);
        SameWithoutFirst(F, R, i, h, rest);
        DropKeepsUnrelated(F, R, i);
        JoinedSpace(F, U, n, h);
        PrunedOfSame(F, n, rest, Drop(R, i), U, d, q);
        PrunedOfSame(F, n, rest, Drop(R, i), Joined(F, U, h), d - 1, q);
        SameTails(F, h, rest, Drop(R, i), U, d, q);
        FirstReplaced(F, n, R, i, h, U, d, q);
      }
    }
  }

  lemma FirstReplaced<T(!new)>(F: Field<T>, n: nat, R: seq<Form<T>>, i: nat, h: Form<T>,
                               U: iset<Form<T>>, d: int, q: int)
    requires IsField(F) && IsSpace(F, U, n) && AllForms(R, n) && i < |R|
    requires |h.normal| == n && Proportional(F, R[i], h)
    ensures Pruned(F, [h] + Drop(R, i), U, d, q) == Pruned(F, R, U, d, q)
  {
    MoveToFront(F, n, R, i, U, d, q);
    MultiplesMeetAlike(F, n, R[i], h, Drop(R, i), U, d, q);
    PrunedCons(F, h, Drop(R, i), U, d, q);
    PrunedCons(F, R[i], Drop(R, i), U, d, q);
  }

  // ----- Linear maps of forms -----

  /** `f` takes forms in `n` coordinates to forms in `m`, linearly, and constants to themselves. */
  ghost predicate IsLinear<T(!new)>(F: Field<T>, n: nat, m: nat, f: Form<T> -> Form<T>) {
    && (forall h: Form<T> {:trigger f(h)} :: |h.normal| == n ==> |f(h).normal| == m)
    && f(OneForm(F, n)) == OneForm(F, m)
    && (forall h: Form<T>, k: Form<T>, r {:trigger Minus(F, h, r, k)} :: |h.normal| == n && |k.normal| == n ==>
          |f(h).normal| == |f(k).normal| && f(Minus(F, h, r, k)) == Minus(F, f(h), r, f(k)))
  }

  /** Exactly the forms of `U` go to `V`. */
  ghost predicate Corresponds<T(!new)>(n: nat, f: Form<T> -> Form<T>, U: iset<Form<T>>, V: iset<Form<T>>) {
    forall h: Form<T> {:trigger f(h)} {:trigger h in U} :: |h.normal| == n ==> (h in U <==> f(h) in V)
  }

  lemma JoinedCorresponds<T(!new)>(F: Field<T>, n: nat, m: nat, f: Form<T> -> Form<T>,
                                   U: iset<Form<T>>, V: iset<Form<T>>, k: Form<T>)
    requires IsLinear(F, n, m, f) && Corresponds(n, f, U, V) && |k.normal| == n
    ensures Corresponds(n, f, Joined(F, U, k), Joined(F, V, f(k)))
  {
    forall h: Form<T> | |h.normal| == n
      ensures h in Joined(F, U, k) <==> f(h) in Joined(F, V, f(k))
    {
      if h in Joined(F, U, k) {
        var c :| Minus(F, h, c, k) in U;
        assert Minus(F, f(h), c, f(k)) in V;
      }
      if f(h) in Joined(F, V, f(k)) {
        var c :| Minus(F, f(h), c, f(k)) in V;
        assert f(Minus(F, h, c, k)) in V;
      }
    }
  }

  ghost function MapForms<T(!new)>(f: Form<T> -> Form<T>, A: seq<Form<T>>): seq<Form<T>> {
    seq(|A|, i requires 0 <= i < |A| => f(A[i]))
  }

  lemma FirstCorresponds<T(!new)>(F: Field<T>, n: nat, m: nat, f: Form<T> -> Form<T>, A: seq<Form<T>>,
                                  U: iset<Form<T>>, V: iset<Form<T>>)
    requires IsLinear(F, n, m, f) && Corresponds(n, f, U, V) && AllForms(A, n) && A != []
    ensures |A[0].normal| == n && |f(A[0]).normal| == m && AllForms(A[1..], n)
    ensures MapForms(f, A) == [f(A[0])] + MapForms(f, A[1..])
    ensures A[0] in U <==> f(A[0]) in V
    ensures A[0] in Joined(F, U, OneForm(F, n)) <==> f(A[0]) in Joined(F, V, OneForm(F, m))
    ensures Corresponds(n, f, Joined(F, U, A[0]), Joined(F, V, f(A[0])))
  {
    assert A[0] in A;
    JoinedCorresponds(F, n, m, f, U, V, A[0]);
    JoinedCorresponds(F, n, m, f, U, V, OneForm(F, n));
  }

  lemma {:induction false} PrunedCorresponds<T(!new)>(F: Field<T>, n: nat, m: nat, f: Form<T> -> Form<T>,
                                                      A: seq<Form<T>>, U: iset<Form<T>>, V: iset<Form<T>>,
                                                      d: int, q: int)
    requires IsLinear(F, n, m, f) && Corresponds(n, f, U, V) && AllForms(A, n)
    ensures Pruned(F, A, U, d, q) == Pruned(F, MapForms(f, A), V, d, q)
    decreases |A|
  {
    if A != [] {
      var h := A[0];
      FirstCorresponds(F, n, m, f, A, U, V);
      PrunedCorresponds(F, n, m, f, A[1..], U, V, d, q);
      PrunedCorresponds(F, n, m, f, A[1..], Joined(F, U, h), Joined(F, V, f(h)), d - 1, q);
    }
  }

  // ----- Restriction -----

  /** The space of a free start: only the zero form is known to vanish. */
  ghost function OnlyZero<T(!new)>(F: Field<T>, n: nat): iset<Form<T>> {
    iset{ZeroForm(F, n)}
  }

  lemma OnlyZeroSpace<T(!new)>(F: Field<T>, n: nat)
    requires IsField(F)
    ensures IsSpace(F, OnlyZero(F, n), n)
  {
    var z := ZeroForm(F, n);
    forall r
      ensures Minus(F, z, r, z) == z
    {
      SubZero(F, F.zero, r);
    }
  }

  ghost function Reducing<T(!new)>(F: Field<T>, k: Form<T>, p: nat): Form<T> -> Form<T> {
    (h: Form<T>) => if p < |h.normal| == |k.normal| then Reduced(F, h, k, p) else h
  }

  lemma RescaleMinus<T(!new)>(F: Field<T>, h: Form<T>, r: T, w: Form<T>, k: Form<T>, p: nat)
    requires IsField(F) && p < |h.normal| == |w.normal| == |k.normal|
    ensures Rescale(F, Minus(F, h, r, w), k, p) == Sub(F, Rescale(F, h, k, p), F.mul(r, Rescale(F, w, k, p)))
  {
    SubTimes(F, h.normal[p], r, w.normal[p], F.inv(k.normal[p]));
  }

  lemma ReducedMinus<T(!new)>(F: Field<T>, h: Form<T>, r: T, w: Form<T>, k: Form<T>, p: nat)
    requires IsField(F) && p < |h.normal| == |w.normal| == |k.normal|
    ensures Reduced(F, Minus(F, h, r, w), k, p) == Minus(F, Reduced(F, h, k, p), r, Reduced(F, w, k, p))
  {
    var c, d := Rescale(F, h, k, p), Rescale(F, w, k, p);
    RescaleMinus(F, h, r, w, k, p);
    MinusOfMinuses(F, h, r, w, c, d, k);
    DropVecSub(F, Minus(F, h, c, k).normal, r, Minus(F, w, d, k).normal, p);
  }

  lemma DropVecSub<T>(F: Field<T>, a: Vec<T>, r: T, c: Vec<T>, p: nat)
    requires p < |a| == |c|
    ensures Drop(VecSub(F, a, r, c), p) == VecSub(F, Drop(a, p), r, Drop(c, p))
  {
  }

  lemma ReducedOne<T(!new)>(F: Field<T>, k: Form<T>, p: nat)
    requires IsField(F) && p < |k.normal|
    ensures Reduced(F, OneForm(F, |k.normal|), k, p) == OneForm(F, |k.normal| - 1)
  {
    MulZero(F, F.inv(k.normal[p]));
    MinusNone(F, OneForm(F, |k.normal|), k);
    assert Drop(Zeros(F, |k.normal|), p) == Zeros(F, |k.normal| - 1);
  }

  lemma ReducingMinus<T(!new)>(F: Field<T>, h: Form<T>, r: T, w: Form<T>, k: Form<T>, p: nat)
    requires IsField(F) && p < |h.normal| == |w.normal| == |k.normal|
    ensures var f := Reducing(F, k, p);
            |f(h).normal| == |f(w).normal| && f(Minus(F, h, r, w)) == Minus(F, f(h), r, f(w))
  {
    ReducedMinus(F, h, r, w, k, p);
  }

  lemma ReducingIsLinear<T(!new)>(F: Field<T>, k: Form<T>, p: nat)
    requires IsField(F) && p < |k.normal|
    ensures IsLinear(F, |k.normal|, |k.normal| - 1, Reducing(F, k, p))
  {
    var n, f := |k.normal|, Reducing(F, k, p);
    ReducedOne(F, k, p);
    forall h: Form<T>, w: Form<T>, r {:trigger Minus(F, h, r, w)} | |h.normal| == n && |w.normal| == n
      ensures |f(h).normal| == |f(w).normal| && f(Minus(F, h, r, w)) == Minus(F, f(h), r, f(w))
    {
      ReducingMinus(F, h, r, w, k, p);
    }
  }

  lemma MultiplesVanish<T(!new)>(F: Field<T>, h: Form<T>, c: T, k: Form<T>, p: nat)
    requires IsField(F) && |h.normal| == |k.normal| && IsPivot(F, k, p)
    requires Minus(F, h, c, k) == ZeroForm(F, |k.normal|)
    ensures Reduced(F, h, k, p) == ZeroForm(F, |k.normal| - 1)
  {
    assert Minus(F, h, c, k).normal[p] == Zeros(F, |k.normal|)[p];
    SubIsZero(F, h.normal[p], F.mul(c, k.normal[p]));
    At(F, c, k.normal[p], F.inv(k.normal[p]));
    At(F, k.normal[p], F.one, F.one);
    At(F, c, F.one, F.one);
    assert Rescale(F, h, k, p) == c;
    assert Drop(Zeros(F, |k.normal|), p) == Zeros(F, |k.normal| - 1);
  }

  lemma OnlyMultiplesVanish<T(!new)>(F: Field<T>, h: Form<T>, k: Form<T>, p: nat)
    requires IsField(F) && |h.normal| == |k.normal| && IsPivot(F, k, p)
    requires Reduced(F, h, k, p) == ZeroForm(F, |k.normal| - 1)
    ensures Minus(F, h, Rescale(F, h, k, p), k) == ZeroForm(F, |k.normal|)
  {
    var m := Minus(F, h, Rescale(F, h, k, p), k);
    Eliminates(F, h.normal[p], k.normal[p]);
    forall i | 0 <= i < |k.normal|
      ensures m.normal[i] == F.zero
    {
      if i < p {
        assert Drop(m.normal, p)[i] == m.normal[i];
      } else if i > p {
        assert Drop(m.normal, p)[i - 1] == m.normal[i];
      }
    }
  }

  /** Reduction by `k` sends to zero exactly what `k` generates. */
  lemma ReducingCorresponds<T(!new)>(F: Field<T>, k: Form<T>, p: nat)
    requires IsField(F) && IsPivot(F, k, p)
    ensures var n := |k.normal|;
            Corresponds(n, Reducing(F, k, p), Joined(F, OnlyZero(F, n), k), OnlyZero(F, n - 1))
  {
    var n := |k.normal|;
    forall h: Form<T> | |h.normal| == n
      ensures h in Joined(F, OnlyZero(F, n), k) <==> Reducing(F, k, p)(h) in OnlyZero(F, n - 1)
    {
      GeneratedVanish(F, h, k, p);
    }
  }

  lemma GeneratedVanish<T(!new)>(F: Field<T>, h: Form<T>, k: Form<T>, p: nat)
    requires IsField(F) && |h.normal| == |k.normal| && IsPivot(F, k, p)
    ensures var n := |k.normal|;
            h in Joined(F, OnlyZero(F, n), k) <==> Reducing(F, k, p)(h) in OnlyZero(F, n - 1)
  {
    var n := |k.normal|;
    assert Reducing(F, k, p)(h) == Reduced(F, h, k, p);
    if h in Joined(F, OnlyZero(F, n), k) {
      var c :| Minus(F, h, c, k) in OnlyZero(F, n);
      MultiplesVanish(F, h, c, k, p);
    }
    if Reduced(F, h, k, p) == ZeroForm(F, n - 1) {
      OnlyMultiplesVanish(F, h, k, p);
      assert Minus(F, h, Rescale(F, h, k, p), k) in OnlyZero(F, n);
    }
  }

  /** A constant other than zero excludes every point. */
  lemma ConstantMeetsNothing<T(!new)>(F: Field<T>, n: nat, g: Form<T>, A: seq<Form<T>>,
                                      U: iset<Form<T>>, d: int, q: int)
    requires IsField(F) && IsSpace(F, U, n) && OneForm(F, n) !in U
    requires |g.normal| == n && AllZero(F, g.normal) && g.b != F.zero
    ensures Meeting(F, g, A, U, d, q) == 0
  {
    var e := OneForm(F, n);
    assert g.normal == Zeros(F, n);
    ConstantIsMultiple(F, g);
    ProportionalSymmetric(F, g, e);
    if g in U {
      MultipleInside(F, U, n, e, g);
    }
    JoinedSpace(F, U, n, e);
    MultipleInside(F, Joined(F, U, e), n, g, e);
  }

  lemma ConstantIsMultiple<T(!new)>(F: Field<T>, g: Form<T>)
    requires IsField(F) && g.normal == Zeros(F, |g.normal|) && g.b != F.zero
    ensures Proportional(F, g, OneForm(F, |g.normal|))
  {
    MulZero(F, g.b);
    At(F, g.b, F.one, F.one);
    assert VecTimes(F, g.b, Zeros(F, |g.normal|)) == g.normal;
    assert g == Times(F, g.b, OneForm(F, |g.normal|));
  }

  lemma StaysConsistent<T(!new)>(F: Field<T>, U: iset<Form<T>>, n: nat, g: Form<T>)
    requires IsField(F) && IsSpace(F, U, n) && |g.normal| == n && OneForm(F, n) !in U
    requires g !in Joined(F, U, OneForm(F, n))
    ensures OneForm(F, n) !in Joined(F, U, g)
  {
    if OneForm(F, n) in Joined(F, U, g) {
      ExchangeIn(F, U, n, OneForm(F, n), g);
    }
  }

  /** `A` reduced, constants and all. */
  ghost function Reductions<T(!new)>(F: Field<T>, k: Form<T>, p: nat, A: seq<Form<T>>): seq<Form<T>> {
    MapForms(Reducing(F, k, p), A)
  }

  ghost predicate ConstantsExclude<T(!new)>(F: Field<T>, k: Form<T>, p: nat, A: seq<Form<T>>)
    requires p < |k.normal| && AllForms(A, |k.normal|)
  {
    forall h :: h in A && AllZero(F, Reduced(F, h, k, p).normal) ==> Reduced(F, h, k, p).b != F.zero
  }

  lemma SkipOne<T(!new)>(F: Field<T>, m: nat, g: Form<T>, all: seq<Form<T>>, kept: seq<Form<T>>, U: iset<Form<T>>,
                         d: int, q: int)
    requires IsField(F) && IsSpace(F, U, m) && OneForm(F, m) !in U && |g.normal| == m
    requires AllZero(F, g.normal) ==> g.b != F.zero
    requires Pruned(F, all, U, d, q) == Pruned(F, kept, U, d, q)
    requires g !in U && g !in Joined(F, U, OneForm(F, m)) ==>
               Pruned(F, all, Joined(F, U, g), d - 1, q) == Pruned(F, kept, Joined(F, U, g), d - 1, q)
    ensures Pruned(F, [g] + all, U, d, q) ==
            Pruned(F, (if AllZero(F, g.normal) then [] else [g]) + kept, U, d, q)
  {
    if AllZero(F, g.normal) {
      ConstantMeetsNothing(F, m, g, all, U, d, q);
      PrunedCons(F, g, all, U, d, q);
      assert [] + kept == kept;
    } else {
      SameTails(F, g, all, kept, U, d, q);
    }
  }

  lemma ReductionsCons<T(!new)>(F: Field<T>, k: Form<T>, p: nat, A: seq<Form<T>>)
    requires p < |k.normal| && AllForms(A, |k.normal|) && ConstantsExclude(F, k, p, A) && A != []
    ensures A[0] in A && AllForms(A[1..], |k.normal|) && ConstantsExclude(F, k, p, A[1..])
    ensures var g := Reduced(F, A[0], k, p);
            && (AllZero(F, g.normal) ==> g.b != F.zero)
            && Reductions(F, k, p, A) == [g] + Reductions(F, k, p, A[1..])
            && Restricted(F, A, k, p) == (if AllZero(F, g.normal) then [] else [g]) + Restricted(F, A[1..], k, p)
  {
  }

  /** The reductions that `restriction` leaves out make no difference. */
  lemma {:induction false} SkipConstants<T(!new)>(F: Field<T>, k: Form<T>, p: nat, A: seq<Form<T>>, U: iset<Form<T>>,
                                                  d: int, q: int)
    requires IsField(F) && IsPivot(F, k, p) && AllForms(A, |k.normal|) && ConstantsExclude(F, k, p, A)
    requires IsSpace(F, U, |k.normal| - 1) && OneForm(F, |k.normal| - 1) !in U
    ensures Pruned(F, Reductions(F, k, p, A), U, d, q) == Pruned(F, Restricted(F, A, k, p), U, d, q)
    decreases |A|
  {
    if A != [] {
      ReductionsCons(F, k, p, A);
      var m, g := |k.normal| - 1, Reduced(F, A[0], k, p);
      SkipConstants(F, k, p, A[1..], U, d, q);
      if g !in U && g !in Joined(F, U, OneForm(F, m)) {
        JoinedSpace(F, U, m, g);
        StaysConsistent(F, U, m, g);
        SkipConstants(F, k, p, A[1..], Joined(F, U, g), d - 1, q);
      }
      SkipOne(F, m, g, Reductions(F, k, p, A[1..]), Restricted(F, A[1..], k, p), U, d, q);
    }
  }

  /** A hyperplane is neither everything nor nothing. */
  lemma HyperplaneIsIndependent<T(!new)>(F: Field<T>, n: nat, k: Form<T>)
    requires IsField(F) && |k.normal| == n && NonZero(F, k.normal)
    ensures k !in OnlyZero(F, n) && k !in Joined(F, OnlyZero(F, n), OneForm(F, n))
  {
    var i :| 0 <= i < n && k.normal[i] != F.zero;
    assert k.normal[i] != ZeroForm(F, n).normal[i];
    forall c
      ensures Minus(F, k, c, OneForm(F, n)) !in OnlyZero(F, n)
    {
      SubZero(F, k.normal[i], c);
      assert Minus(F, k, c, OneForm(F, n)).normal[i] != ZeroForm(F, n).normal[i];
    }
  }

  lemma RestrictedSkipsFirst<T(!new)>(F: Field<T>, A: seq<Form<T>>, n: nat, p: nat)
    requires IsField(F) && IsArrangement(F, A, n) && A != [] && IsPivot(F, A[0], p)
    ensures AllForms(A, n) && AllForms(A[1..], n)
    ensures Restricted(F, A, A[0], p) == Restricted(F, A[1..], A[0], p)
    ensures ConstantsExclude(F, A[0], p, A[1..])
  {
    RestMembers(F, A, n);
    SelfVanishes(F, A[0], p);
    forall h | h in A[1..] && AllZero(F, Reduced(F, h, A[0], p).normal)
      ensures Reduced(F, h, A[0], p).b != F.zero
    {
      if Reduced(F, h, A[0], p).b == F.zero {
        VanishesOnlyIfProportional(F, h, A[0], p);
      }
    }
  }

  lemma MeetingIsReduced<T(!new)>(F: Field<T>, k: Form<T>, p: nat, A: seq<Form<T>>, q: int)
    requires IsField(F) && IsPivot(F, k, p) && AllForms(A, |k.normal|)
    ensures var n := |k.normal|;
            Meeting(F, k, A, OnlyZero(F, n), n, q) == Pruned(F, Reductions(F, k, p, A), OnlyZero(F, n - 1), n - 1, q)
  {
    var n := |k.normal|;
    assert NonZero(F, k.normal);
    HyperplaneIsIndependent(F, n, k);
    ReducingIsLinear(F, k, p);
    ReducingCorresponds(F, k, p);
    PrunedCorresponds(F, n, n - 1, Reducing(F, k, p), A, Joined(F, OnlyZero(F, n), k), OnlyZero(F, n - 1), n - 1, q);
  }

  lemma OneIsNotZero<T(!new)>(F: Field<T>, n: nat)
    requires IsField(F)
    ensures OneForm(F, n) !in OnlyZero(F, n)
  {
  }

  lemma MeetingIsKept<T(!new)>(F: Field<T>, k: Form<T>, p: nat, A: seq<Form<T>>, q: int)
    requires IsField(F) && IsPivot(F, k, p) && AllForms(A, |k.normal|) && ConstantsExclude(F, k, p, A)
    ensures var n := |k.normal|;
            Meeting(F, k, A, OnlyZero(F, n), n, q) == Pruned(F, Restricted(F, A, k, p), OnlyZero(F, n - 1), n - 1, q)
  {
    var m := |k.normal| - 1;
    MeetingIsReduced(F, k, p, A, q);
    OnlyZeroSpace(F, m);
    OneIsNotZero(F, m);
    SkipConstants(F, k, p, A, OnlyZero(F, m), m, q);
  }

  lemma MeetingIsRestricted<T(!new)>(F: Field<T>, A: seq<Form<T>>, n: nat, p: nat, q: int)
    requires IsField(F) && IsArrangement(F, A, n) && A != [] && IsPivot(F, A[0], p)
    ensures n > 0 && AllForms(A, n)
    ensures Meeting(F, A[0], A[1..], OnlyZero(F, n), n, q) ==
            Pruned(F, Restricted(F, A, A[0], p), OnlyZero(F, n - 1), n - 1, q)
  {
    RestrictedSkipsFirst(F, A, n, p);
    MeetingIsKept(F, A[0], p, A[1..], q);
  }

  lemma PrunedOfConstruct<T(!new)>(F: Field<T>, hs: seq<Form<T>>, n: nat, d: int, q: int)
    requires IsField(F) && AllHyperplanes(F, hs, n)
    ensures Pruned(F, hs, OnlyZero(F, n), d, q) == Pruned(F, Construct(F, hs), OnlyZero(F, n), d, q)
  {
    ConstructIsArrangement(F, hs, n);
    OnlyZeroSpace(F, n);
    FormsOf(F, hs, n);
    FormsOf(F, Construct(F, hs), n);
    PrunedOfSame(F, n, hs, Construct(F, hs), OnlyZero(F, n), d, q);
  }

  lemma RestrictConstructs<T(!new)>(F: Field<T>, A: seq<Form<T>>, n: nat, p: nat)
    requires IsField(F) && IsArrangement(F, A, n) && A != [] && p == Pivot(F, A[0])
    ensures n > 0 && AllForms(A, n) && AllHyperplanes(F, Restricted(F, A, A[0], p), n - 1)
    ensures Restrict(F, A, n) == Construct(F, Restricted(F, A, A[0], p))
  {
    FormsOf(F, A, n);
    RestrictedHyperplanes(F, A, n, p);
  }

  /** Deletion and restriction, as the recursion does them. */
  lemma PrunedStep<T(!new)>(F: Field<T>, A: seq<Form<T>>, n: nat, q: int)
    requires IsField(F) && IsArrangement(F, A, n) && A != []
    ensures n > 0
    ensures Pruned(F, A, OnlyZero(F, n), n, q) ==
            Pruned(F, A[1..], OnlyZero(F, n), n, q) - Pruned(F, Restrict(F, A, n), OnlyZero(F, n - 1), n - 1, q)
  {
    var p := Pivot(F, A[0]);
    RestrictConstructs(F, A, n, p);
    var hs := Restricted(F, A, A[0], p);
    PrunedFirst(F, A, OnlyZero(F, n), n, q);
    MeetingIsRestricted(F, A, n, p, q);
    PrunedOfConstruct(F, hs, n - 1, n - 1, q);
  }

  lemma FormsOf<T>(F: Field<T>, A: seq<Form<T>>, n: nat)
    requires AllHyperplanes(F, A, n)
    ensures AllForms(A, n)
  {
  }

  // ----- Parallel hyperplanes -----

  lemma {:induction false} AllMeetNothing<T(!new)>(F: Field<T>, n: nat, A: seq<Form<T>>,
                                                   U: iset<Form<T>>, d: int, q: int)
    requires forall h :: h in A ==> |h.normal| == n && h !in U && h in Joined(F, U, OneForm(F, n))
    ensures Pruned(F, A, U, d, q) == PowerOrNone(q, d)
    decreases |A|
  {
    if A != [] {
      assert A[0] in A;
      AllMeetNothing(F, n, A[1..], U, d, q);
    }
  }

  lemma ParallelExcludes<T(!new)>(F: Field<T>, n: nat, h: Form<T>, k: Form<T>)
    requires IsField(F) && |h.normal| == |k.normal| == n && NonZero(F, h.normal)
    requires Parallel(F, h, k) && !Proportional(F, h, k)
    ensures var V := Joined(F, OnlyZero(F, n), k); h !in V && h in Joined(F, V, OneForm(F, n))
  {
    var V, e := Joined(F, OnlyZero(F, n), k), OneForm(F, n);
    if h in V {
      MultipleIsProportional(F, n, h, k);
    }
    var c :| h.normal == VecTimes(F, c, k.normal);
    var a := Sub(F, h.b, F.mul(c, k.b));
    assert Minus(F, Minus(F, h, c, k), a, e) == ZeroForm(F, n) by {
      forall i | 0 <= i < n
        ensures Minus(F, Minus(F, h, c, k), a, e).normal[i] == F.zero
      {
        SubIsZero(F, h.normal[i], F.mul(c, k.normal[i]));
        SubZero(F, F.zero, a);
      }
      At(F, a, F.one, F.one);
      SubIsZero(F, a, a);
    }
    MinusCommutes(F, h, c, k, a, e);
    assert Minus(F, h, a, e) in V;
  }

  lemma MultipleIsProportional<T(!new)>(F: Field<T>, n: nat, h: Form<T>, k: Form<T>)
    requires IsField(F) && |h.normal| == |k.normal| == n && NonZero(F, h.normal)
    requires h in Joined(F, OnlyZero(F, n), k)
    ensures Proportional(F, h, k)
  {
    var c :| Minus(F, h, c, k) in OnlyZero(F, n);
    forall i | 0 <= i < n
      ensures h.normal[i] == F.mul(c, k.normal[i])
    {
      assert Minus(F, h, c, k).normal[i] == Zeros(F, n)[i];
      SubIsZero(F, h.normal[i], F.mul(c, k.normal[i]));
    }
    SubIsZero(F, h.b, F.mul(c, k.b));
    assert h == Times(F, c, k);
    if c == F.zero {
      var i :| 0 <= i < n && h.normal[i] != F.zero;
      MulZero(F, k.normal[i]);
    }
  }

  lemma ParallelsMeetingFirst<T(!new)>(F: Field<T>, A: seq<Form<T>>, n: nat, q: int)
    requires IsField(F) && IsArrangement(F, A, n) && AllParallel(F, A) && A != [] && n > 0
    ensures Meeting(F, A[0], A[1..], OnlyZero(F, n), n, q) == Power(q, n - 1)
  {
    var k := A[0];
    HyperplaneIsIndependent(F, n, k);
    forall h | h in A[1..]
      ensures |h.normal| == n && h !in Joined(F, OnlyZero(F, n), k)
      ensures h in Joined(F, Joined(F, OnlyZero(F, n), k), OneForm(F, n))
    {
      var i :| 1 <= i < |A| && A[i] == h;
      ParallelExcludes(F, n, h, k);
    }
    AllMeetNothing(F, n, A[1..], Joined(F, OnlyZero(F, n), k), n - 1, q);
  }

  lemma {:induction false} PrunedParallels<T(!new)>(F: Field<T>, A: seq<Form<T>>, n: nat, q: int)
    requires IsField(F) && IsArrangement(F, A, n) && AllParallel(F, A) && n > 0
    ensures Pruned(F, A, OnlyZero(F, n), n, q) == Power(q, n) - |A| * Power(q, n - 1)
    decreases |A|
  {
    if A != [] {
      RestMembers(F, A, n);
      PrunedParallels(F, A[1..], n, q);
      ParallelsMeetingFirst(F, A, n, q);
      PrunedFirst(F, A, OnlyZero(F, n), n, q);
      OneMoreTimesInt(|A| - 1, Power(q, n - 1));
    }
  }

  lemma OneMoreTimesInt(m: int, k: int)
    ensures (m + 1) * k == m * k + k
  {
  }

  lemma RankOneIsPruned<T(!new)>(F: Field<T>, A: seq<Form<T>>, n: nat, q: int)
    requires IsField(F) && IsArrangement(F, A, n) && RankOne(F, A)
    ensures CharPolyAt(F, A, n, q) == Pruned(F, A, OnlyZero(F, n), n, q)
  {
    var p := Pivot(F, A[0]);
    RankOneIsParallel(F, A, n);
    PrunedParallels(F, A, n, q);
    RankOneArithmetic(q, Power(q, n - 1), |A|);
  }

  /** Over any field and at any q, the recursion of `characteristic_polynomial` computes what
      the sum's recurrence does. */
  lemma {:induction false} CharPolyIsPruned<T(!new)>(F: Field<T>, A: seq<Form<T>>, n: nat, q: int)
    requires IsField(F) && IsArrangement(F, A, n) && A != []
    ensures CharPolyAt(F, A, n, q) == Pruned(F, A, OnlyZero(F, n), n, q)
    decreases |A|
  {
    if RankOne(F, A) {
      RankOneIsPruned(F, A, n, q);
    } else {
      CharPolyStep(F, A, n, q);
      NeverRankZero(F, A, n);
      CharPolyIsPruned(F, A[1..], n, q);
      CharPolyIsPruned(F, Restrict(F, A, n), n - 1, q);
      PrunedStep(F, A, n, q);
    }
  }
}
