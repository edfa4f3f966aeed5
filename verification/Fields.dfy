/**
 Fields, given by their operations on a carrier type, and the handful of
 identities that linear algebra over them needs.
 */
module Fields {

  datatype Field<!T> = Field(
    zero: T, one: T,
    add: (T, T) -> T, neg: T -> T,
    mul: (T, T) -> T, inv: T -> T)

  /** The field axioms for three elements. */
  ghost predicate Axioms<T(!new)>(F: Field<T>, a: T, b: T, c: T) {
    && F.add(a, b) == F.add(b, a)
    && F.add(F.add(a, b), c) == F.add(a, F.add(b, c))
    && F.add(a, F.zero) == a
    && F.add(a, F.neg(a)) == F.zero
    && F.mul(a, b) == F.mul(b, a)
    && F.mul(F.mul(a, b), c) == F.mul(a, F.mul(b, c))
    && F.mul(a, F.one) == a
    && (a != F.zero ==> F.mul(a, F.inv(a)) == F.one)
    && F.mul(a, F.add(b, c)) == F.add(F.mul(a, b), F.mul(a, c))
  }

  /** Always true: names the elements at which the axioms are to be used, so that the
      verifier does not instantiate them everywhere. */
  predicate Use<T>(a: T, b: T, c: T) {
    true
  }

  ghost predicate IsField<T(!new)>(F: Field<T>) {
    F.one != F.zero && forall a, b, c {:trigger Use(a, b, c)} :: Use(a, b, c) ==> Axioms(F, a, b, c)
  }

  lemma At<T(!new)>(F: Field<T>, a: T, b: T, c: T)
    requires IsField(F)
    ensures Axioms(F, a, b, c)
  {
    assert Use(a, b, c);
  }

  function Sub<T>(F: Field<T>, a: T, b: T): T {
    F.add(a, F.neg(b))
  }

  lemma Cancel<T(!new)>(F: Field<T>, a: T, b: T, c: T)
    requires IsField(F) && F.add(a, b) == F.add(a, c)
    ensures b == c
  {
    var n := F.neg(a);
    At(F, n, a, b);
    At(F, n, a, c);
    At(F, a, n, n);
    At(F, b, F.zero, b);
    At(F, c, F.zero, c);
  }

  /** (a + b) + (c + d) = (a + c) + (b + d) */
  lemma AddSwap<T(!new)>(F: Field<T>, a: T, b: T, c: T, d: T)
    requires IsField(F)
    ensures F.add(F.add(a, b), F.add(c, d)) == F.add(F.add(a, c), F.add(b, d))
  {
    At(F, a, b, F.add(c, d));
    At(F, b, c, d);
    At(F, c, b, d);
    At(F, a, c, F.add(b, d));
  }

  lemma NegAdd<T(!new)>(F: Field<T>, a: T, b: T)
    requires IsField(F)
    ensures F.neg(F.add(a, b)) == F.add(F.neg(a), F.neg(b))
  {
    AddSwap(F, a, b, F.neg(a), F.neg(b));
    At(F, a, a, a);
    At(F, b, b, b);
    At(F, F.zero, F.zero, F.zero);
    At(F, F.add(a, b), F.zero, F.zero);
    Cancel(F, F.add(a, b), F.neg(F.add(a, b)), F.add(F.neg(a), F.neg(b)));
  }

  /** (a - c) + (b - d) = (a + b) - (c + d) */
  lemma SubAdd<T(!new)>(F: Field<T>, a: T, b: T, c: T, d: T)
    requires IsField(F)
    ensures F.add(Sub(F, a, c), Sub(F, b, d)) == Sub(F, F.add(a, b), F.add(c, d))
  {
    AddSwap(F, a, F.neg(c), b, F.neg(d));
    NegAdd(F, c, d);
  }

  lemma MulZero<T(!new)>(F: Field<T>, a: T)
    requires IsField(F)
    ensures F.mul(a, F.zero) == F.zero && F.mul(F.zero, a) == F.zero
  {
    At(F, a, F.zero, F.zero);
    At(F, F.zero, F.zero, F.zero);
    At(F, F.mul(a, F.zero), F.zero, F.zero);
    Cancel(F, F.mul(a, F.zero), F.mul(a, F.zero), F.zero);
  }

  lemma MulNeg<T(!new)>(F: Field<T>, a: T, b: T)
    requires IsField(F)
    ensures F.mul(a, F.neg(b)) == F.neg(F.mul(a, b))
  {
    MulZero(F, a);
    At(F, a, b, F.neg(b));
    At(F, b, b, b);
    At(F, F.mul(a, b), b, b);
    Cancel(F, F.mul(a, b), F.mul(a, F.neg(b)), F.neg(F.mul(a, b)));
  }

  /** (a - r c) x = a x - r (c x) */
  lemma SubTimes<T(!new)>(F: Field<T>, a: T, r: T, c: T, x: T)
    requires IsField(F)
    ensures F.mul(Sub(F, a, F.mul(r, c)), x) == Sub(F, F.mul(a, x), F.mul(r, F.mul(c, x)))
  {
    var m := F.mul(r, c);
    At(F, Sub(F, a, m), x, x);
    At(F, x, a, F.neg(m));
    MulNeg(F, x, m);
    At(F, x, m, m);
    At(F, r, c, x);
  }

  lemma NoZeroDivisors<T(!new)>(F: Field<T>, a: T, b: T)
    requires IsField(F) && a != F.zero
    ensures F.mul(a, b) == F.zero <==> b == F.zero
  {
    MulZero(F, a);
    MulZero(F, F.inv(a));
    At(F, F.inv(a), a, b);
    At(F, a, F.inv(a), b);
    At(F, F.one, b, b);
    At(F, b, F.one, b);
  }

  /** The solution of a x + d = 0. */
  function Root<T>(F: Field<T>, a: T, d: T): T {
    F.mul(F.inv(a), F.neg(d))
  }

  lemma RootSolves<T(!new)>(F: Field<T>, a: T, d: T, x: T)
    requires IsField(F) && a != F.zero
    ensures F.add(F.mul(a, x), d) == F.zero <==> x == Root(F, a, d)
  {
    var i, nd := F.inv(a), F.neg(d);
    At(F, a, i, nd);
    At(F, i, a, x);
    At(F, x, F.one, x);
    At(F, F.one, x, x);
    At(F, F.one, nd, nd);
    At(F, nd, F.one, nd);
    At(F, d, F.mul(a, x), d);
    At(F, nd, d, d);
    At(F, d, nd, nd);
    if F.add(F.mul(a, x), d) == F.zero {
      Cancel(F, d, F.mul(a, x), nd);
    }
  }

  /** h - (h / k) k = 0 */
  lemma Eliminates<T(!new)>(F: Field<T>, h: T, k: T)
    requires IsField(F) && k != F.zero
    ensures Sub(F, h, F.mul(F.mul(h, F.inv(k)), k)) == F.zero
  {
    At(F, h, F.inv(k), k);
    At(F, k, F.inv(k), k);
    At(F, h, h, h);
  }

  lemma SubZero<T(!new)>(F: Field<T>, a: T, r: T)
    requires IsField(F)
    ensures Sub(F, a, F.mul(r, F.zero)) == a
  {
    MulZero(F, r);
    At(F, F.zero, F.neg(F.zero), F.zero);
    At(F, F.neg(F.zero), F.zero, F.zero);
    At(F, a, F.zero, F.zero);
  }

  lemma SubIsZero<T(!new)>(F: Field<T>, a: T, b: T)
    requires IsField(F)
    ensures Sub(F, a, b) == F.zero <==> a == b
  {
    var nb := F.neg(b);
    At(F, a, nb, nb);
    At(F, nb, b, b);
    At(F, b, nb, nb);
    if Sub(F, a, b) == F.zero {
      Cancel(F, nb, a, b);
    }
  }

  lemma SubSelf<T(!new)>(F: Field<T>, a: T)
    requires IsField(F)
    ensures Sub(F, a, F.mul(F.one, a)) == F.zero
  {
    At(F, F.one, a, a);
    At(F, a, F.one, a);
  }

  lemma SubNone<T(!new)>(F: Field<T>, a: T, c: T)
    requires IsField(F)
    ensures Sub(F, a, F.mul(F.zero, c)) == a
  {
    MulZero(F, c);
    SubZero(F, a, c);
  }

  /** (v - a) - b = (v - b) - a */
  lemma SubCommutes<T(!new)>(F: Field<T>, v: T, a: T, b: T)
    requires IsField(F)
    ensures Sub(F, Sub(F, v, a), b) == Sub(F, Sub(F, v, b), a)
  {
    At(F, v, F.neg(a), F.neg(b));
    At(F, F.neg(a), F.neg(b), v);
    At(F, v, F.neg(b), F.neg(a));
  }

  /** -(a - b) = b - a */
  lemma NegSub<T(!new)>(F: Field<T>, a: T, b: T)
    requires IsField(F)
    ensures F.neg(Sub(F, a, b)) == Sub(F, b, a)
  {
    var na, nb := F.neg(a), F.neg(b);
    NegAdd(F, a, nb);
    At(F, nb, F.neg(nb), nb);
    At(F, b, nb, nb);
    At(F, nb, b, b);
    Cancel(F, nb, F.neg(nb), b);
    At(F, na, b, b);
  }

  /** (v - a) - (b - c) = (v - b) - (a - c) */
  lemma SubSwap<T(!new)>(F: Field<T>, v: T, a: T, b: T, c: T)
    requires IsField(F)
    ensures Sub(F, Sub(F, v, a), Sub(F, b, c)) == Sub(F, Sub(F, v, b), Sub(F, a, c))
  {
    NegSub(F, b, c);
    NegSub(F, a, c);
    SubAdd(F, v, c, a, b);
    SubAdd(F, v, c, b, a);
    At(F, a, b, b);
  }

  /** r (a - b) = r a - r b */
  lemma TimesSub<T(!new)>(F: Field<T>, r: T, a: T, b: T)
    requires IsField(F)
    ensures F.mul(r, Sub(F, a, b)) == Sub(F, F.mul(r, a), F.mul(r, b))
  {
    At(F, r, a, F.neg(b));
    MulNeg(F, r, b);
  }

  /** (v - r w) - (c - r d) x = (v - c x) - r (w - d x) */
  lemma SubOfSubs<T(!new)>(F: Field<T>, v: T, r: T, w: T, c: T, d: T, x: T)
    requires IsField(F)
    ensures Sub(F, Sub(F, v, F.mul(r, w)), F.mul(Sub(F, c, F.mul(r, d)), x)) ==
            Sub(F, Sub(F, v, F.mul(c, x)), F.mul(r, Sub(F, w, F.mul(d, x))))
  {
    SubTimes(F, c, r, d, x);
    TimesSub(F, r, w, F.mul(d, x));
    SubSwap(F, v, F.mul(r, w), F.mul(c, x), F.mul(r, F.mul(d, x)));
  }

  /** x - y / c = 0 - (y - c x) / c */
  lemma SolveFor<T(!new)>(F: Field<T>, x: T, y: T, c: T)
    requires IsField(F) && c != F.zero
    ensures Sub(F, x, F.mul(F.inv(c), y)) == Sub(F, F.zero, F.mul(F.inv(c), Sub(F, y, F.mul(c, x))))
  {
    var i, z := F.inv(c), Sub(F, x, F.mul(F.inv(c), y));
    TimesSub(F, i, y, F.mul(c, x));
    At(F, i, c, x);
    At(F, c, i, x);
    At(F, F.one, x, x);
    At(F, x, F.one, x);
    NegSub(F, F.mul(i, y), x);
    At(F, F.zero, z, z);
    At(F, z, F.zero, z);
  }

  /** (v - c x) - (-c) x = v */
  lemma AddBack<T(!new)>(F: Field<T>, v: T, c: T, x: T)
    requires IsField(F)
    ensures Sub(F, Sub(F, v, F.mul(c, x)), F.mul(F.neg(c), x)) == v
  {
    var t := F.mul(c, x);
    At(F, F.neg(c), x, x);
    At(F, x, c, c);
    At(F, c, x, x);
    MulNeg(F, x, c);
    At(F, v, F.neg(t), F.neg(F.neg(t)));
    At(F, F.neg(t), t, t);
    At(F, v, v, v);
  }

  /** The two-element field: exclusive or, and conjunction. */
  function GF2(): Field<bool> {
    Field(false, true, (a, b) => a != b, a => a, (a, b) => a && b, a => a)
  }

  lemma GF2IsField()
    ensures IsField(GF2())
  {
  }

  function Reals(): Field<real> {
    Field(0.0, 1.0, (a, b) => a + b, a => -a, (a, b) => a * b, a => if a == 0.0 then 0.0 else 1.0 / a)
  }

  lemma RealsAreAField()
    ensures IsField(Reals())
  {
    var F := Reals();
    forall a, b, c
      ensures Axioms(F, a, b, c)
    {
      assert (a * b) * c == a * (b * c);
      assert a * (b + c) == a * b + a * c;
    }
  }
}
