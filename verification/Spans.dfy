/**
 Spaces of affine forms over a field, and what joining one more form to a space
 does: the exchange property, on which rank rests.
 */
module Spans {
  import opened Fields
  import opened Hyperplanes

  type Form<T> = Hyperplane<T>

  function Zeros<T>(F: Field<T>, n: nat): (z: Vec<T>)
    ensures |z| == n
  {
    seq(n, _ => F.zero)
  }

  /** The form that is zero everywhere. */
  function ZeroForm<T>(F: Field<T>, n: nat): Form<T> {
    Hyperplane(Zeros(F, n), F.zero)
  }

  /** The form that is one everywhere. */
  function OneForm<T>(F: Field<T>, n: nat): Form<T> {
    Hyperplane(Zeros(F, n), F.one)
  }

  ghost predicate IsSpace<T(!new)>(F: Field<T>, U: iset<Form<T>>, n: nat) {
    && (forall h :: h in U ==> |h.normal| == n)
    && ZeroForm(F, n) in U
    && (forall h, k, r {:trigger Minus(F, h, r, k)} :: h in U && k in U ==> Minus(F, h, r, k) in U)
  }

  ghost predicate InJoined<T(!new)>(F: Field<T>, U: iset<Form<T>>, k: Form<T>, h: Form<T>) {
    |h.normal| == |k.normal| && exists c :: Minus(F, h, c, k) in U
  }

  /** The forms of `U` with a multiple of `k` added. */
  ghost function Joined<T(!new)>(F: Field<T>, U: iset<Form<T>>, k: Form<T>): iset<Form<T>> {
    iset h: Form<T> | InJoined(F, U, k, h)
  }

  // ----- Identities of forms -----

  lemma MinusNone<T(!new)>(F: Field<T>, h: Form<T>, k: Form<T>)
    requires IsField(F) && |h.normal| == |k.normal|
    ensures Minus(F, h, F.zero, k) == h
  {
    forall i | 0 <= i < |h.normal|
      ensures Sub(F, h.normal[i], F.mul(F.zero, k.normal[i])) == h.normal[i]
    {
      SubNone(F, h.normal[i], k.normal[i]);
    }
    SubNone(F, h.b, k.b);
  }

  lemma MinusSelf<T(!new)>(F: Field<T>, h: Form<T>)
    requires IsField(F)
    ensures Minus(F, h, F.one, h) == ZeroForm(F, |h.normal|)
  {
    forall i | 0 <= i < |h.normal|
      ensures Sub(F, h.normal[i], F.mul(F.one, h.normal[i])) == F.zero
    {
      SubSelf(F, h.normal[i]);
    }
    SubSelf(F, h.b);
  }

  lemma MinusCommutes<T(!new)>(F: Field<T>, v: Form<T>, a: T, y: Form<T>, b: T, x: Form<T>)
    requires IsField(F) && |v.normal| == |x.normal| == |y.normal|
    ensures Minus(F, Minus(F, v, a, y), b, x) == Minus(F, Minus(F, v, b, x), a, y)
  {
    forall i | 0 <= i < |v.normal|
      ensures Minus(F, Minus(F, v, a, y), b, x).normal[i] == Minus(F, Minus(F, v, b, x), a, y).normal[i]
    {
      SubCommutes(F, v.normal[i], F.mul(a, y.normal[i]), F.mul(b, x.normal[i]));
    }
    SubCommutes(F, v.b, F.mul(a, y.b), F.mul(b, x.b));
  }

  /** (v - r w) - (c - r d) x = (v - c x) - r (w - d x) */
  lemma MinusOfMinuses<T(!new)>(F: Field<T>, v: Form<T>, r: T, w: Form<T>, c: T, d: T, x: Form<T>)
    requires IsField(F) && |v.normal| == |w.normal| == |x.normal|
    ensures Minus(F, Minus(F, v, r, w), Sub(F, c, F.mul(r, d)), x) ==
            Minus(F, Minus(F, v, c, x), r, Minus(F, w, d, x))
  {
    var left := Minus(F, Minus(F, v, r, w), Sub(F, c, F.mul(r, d)), x);
    var right := Minus(F, Minus(F, v, c, x), r, Minus(F, w, d, x));
    forall i | 0 <= i < |v.normal|
      ensures left.normal[i] == right.normal[i]
    {
      SubOfSubs(F, v.normal[i], r, w.normal[i], c, d, x.normal[i]);
    }
    SubOfSubs(F, v.b, r, w.b, c, d, x.b);
  }

  lemma MinusSolveFor<T(!new)>(F: Field<T>, x: Form<T>, y: Form<T>, c: T)
    requires IsField(F) && |x.normal| == |y.normal| && c != F.zero
    ensures Minus(F, x, F.inv(c), y) == Minus(F, ZeroForm(F, |x.normal|), F.inv(c), Minus(F, y, c, x))
  {
    var right := Minus(F, ZeroForm(F, |x.normal|), F.inv(c), Minus(F, y, c, x));
    forall i | 0 <= i < |x.normal|
      ensures Minus(F, x, F.inv(c), y).normal[i] == right.normal[i]
    {
      SolveFor(F, x.normal[i], y.normal[i], c);
    }
    SolveFor(F, x.b, y.b, c);
  }

  lemma MinusAddBack<T(!new)>(F: Field<T>, v: Form<T>, c: T, x: Form<T>)
    requires IsField(F) && |v.normal| == |x.normal|
    ensures Minus(F, Minus(F, v, c, x), F.neg(c), x) == v
  {
    forall i | 0 <= i < |v.normal|
      ensures Minus(F, Minus(F, v, c, x), F.neg(c), x).normal[i] == v.normal[i]
    {
      AddBack(F, v.normal[i], c, x.normal[i]);
    }
    AddBack(F, v.b, c, x.b);
  }

  // ----- Joining one form -----

  lemma JoinedSpace<T(!new)>(F: Field<T>, U: iset<Form<T>>, n: nat, k: Form<T>)
    requires IsField(F) && IsSpace(F, U, n) && |k.normal| == n
    ensures IsSpace(F, Joined(F, U, k), n) && U <= Joined(F, U, k) && k in Joined(F, U, k)
  {
    var V := Joined(F, U, k);
    forall h | h in U
      ensures h in V
    {
      MinusNone(F, h, k);
    }
    MinusSelf(F, k);
    forall v, w, r {:trigger Minus(F, v, r, w)} | v in V && w in V
      ensures Minus(F, v, r, w) in V
    {
      var c :| Minus(F, v, c, k) in U;
      var d :| Minus(F, w, d, k) in U;
      MinusOfMinuses(F, v, r, w, c, d, k);
      assert Minus(F, Minus(F, v, r, w), Sub(F, c, F.mul(r, d)), k) in U;
    }
  }

  lemma JoinedGrows<T(!new)>(F: Field<T>, U: iset<Form<T>>, V: iset<Form<T>>, k: Form<T>)
    requires U <= V
    ensures Joined(F, U, k) <= Joined(F, V, k)
  {
  }

  /** Joining a form that is there already adds nothing. */
  lemma JoinedKnown<T(!new)>(F: Field<T>, U: iset<Form<T>>, n: nat, k: Form<T>)
    requires IsField(F) && IsSpace(F, U, n) && k in U
    ensures Joined(F, U, k) == U
  {
    JoinedSpace(F, U, n, k);
    forall v | v in Joined(F, U, k)
      ensures v in U
    {
      var c :| Minus(F, v, c, k) in U;
      MinusAddBack(F, v, c, k);
      assert Minus(F, Minus(F, v, c, k), F.neg(c), k) in U;
    }
  }

  lemma JoinedCommutesOneWay<T(!new)>(F: Field<T>, U: iset<Form<T>>, h: Form<T>, k: Form<T>)
    requires IsField(F) && |h.normal| == |k.normal|
    ensures Joined(F, Joined(F, U, h), k) <= Joined(F, Joined(F, U, k), h)
  {
    forall v | v in Joined(F, Joined(F, U, h), k)
      ensures v in Joined(F, Joined(F, U, k), h)
    {
      var a :| Minus(F, v, a, k) in Joined(F, U, h);
      var b :| Minus(F, Minus(F, v, a, k), b, h) in U;
      MinusCommutes(F, v, a, k, b, h);
      assert Minus(F, v, b, h) in Joined(F, U, k);
    }
  }

  lemma JoinedCommutes<T(!new)>(F: Field<T>, U: iset<Form<T>>, h: Form<T>, k: Form<T>)
    requires IsField(F) && |h.normal| == |k.normal|
    ensures Joined(F, Joined(F, U, h), k) == Joined(F, Joined(F, U, k), h)
  {
    JoinedCommutesOneWay(F, U, h, k);
    JoinedCommutesOneWay(F, U, k, h);
  }

  lemma ExchangeIn<T(!new)>(F: Field<T>, U: iset<Form<T>>, n: nat, h: Form<T>, k: Form<T>)
    requires IsField(F) && IsSpace(F, U, n) && |k.normal| == n
    requires h in Joined(F, U, k) && h !in U
    ensures |h.normal| == n && k in Joined(F, U, h)
  {
    var c :| Minus(F, h, c, k) in U;
    MinusNone(F, h, k);
    MinusSolveFor(F, k, h, c);
    assert Minus(F, k, F.inv(c), h) in U;
  }

  lemma JoinedTwice<T(!new)>(F: Field<T>, U: iset<Form<T>>, n: nat, h: Form<T>, k: Form<T>)
    requires IsField(F) && IsSpace(F, U, n) && |h.normal| == n && k in Joined(F, U, h)
    ensures Joined(F, Joined(F, U, h), k) == Joined(F, U, h)
  {
    JoinedSpace(F, U, n, h);
    JoinedKnown(F, Joined(F, U, h), n, k);
  }

  /** Exchange: a form that joining `k` brings in brings in `k`, and the two spaces are the same. */
  lemma Exchange<T(!new)>(F: Field<T>, U: iset<Form<T>>, n: nat, h: Form<T>, k: Form<T>)
    requires IsField(F) && IsSpace(F, U, n) && |k.normal| == n
    requires h in Joined(F, U, k) && h !in U
    ensures k in Joined(F, U, h) && Joined(F, U, h) == Joined(F, U, k)
  {
    ExchangeIn(F, U, n, h, k);
    JoinedTwice(F, U, n, h, k);
    JoinedTwice(F, U, n, k, h);
    JoinedCommutes(F, U, h, k);
  }

  // ----- Multiples -----

  lemma TimesIsMinus<T(!new)>(F: Field<T>, c: T, h: Form<T>)
    requires IsField(F)
    ensures Times(F, c, h) == Minus(F, ZeroForm(F, |h.normal|), F.neg(c), h)
  {
    forall i | 0 <= i < |h.normal|
      ensures F.mul(c, h.normal[i]) == Sub(F, F.zero, F.mul(F.neg(c), h.normal[i]))
    {
      TimesIsSub(F, c, h.normal[i]);
    }
    TimesIsSub(F, c, h.b);
  }

  lemma TimesIsSub<T(!new)>(F: Field<T>, c: T, x: T)
    requires IsField(F)
    ensures F.mul(c, x) == Sub(F, F.zero, F.mul(F.neg(c), x))
  {
    AddBack(F, F.mul(c, x), c, x);
    SubIsZero(F, F.mul(c, x), F.mul(c, x));
  }

  lemma MultipleInside<T(!new)>(F: Field<T>, U: iset<Form<T>>, n: nat, g: Form<T>, h: Form<T>)
    requires IsField(F) && IsSpace(F, U, n) && Proportional(F, g, h) && h in U
    ensures g in U
  {
    var c :| c != F.zero && g == Times(F, c, h);
    TimesIsMinus(F, c, h);
  }
}
