/**
 Hyperplanes over a field, and the elimination step of `restriction`: subtract a
 multiple of the chosen hyperplane to clear the pivot, then drop that coordinate.
 */
module Hyperplanes {
  import opened Fields

  type Vec<T> = seq<T>

  /** normal . x + b */
  datatype Hyperplane<T> = Hyperplane(normal: Vec<T>, b: T)

  function Dot<T>(F: Field<T>, a: Vec<T>, x: Vec<T>): T
    requires |a| == |x|
  {
    if a == [] then F.zero else F.add(F.mul(a[0], x[0]), Dot(F, a[1..], x[1..]))
  }

  function Val<T>(F: Field<T>, h: Hyperplane<T>, x: Vec<T>): T
    requires |h.normal| == |x|
  {
    F.add(Dot(F, h.normal, x), h.b)
  }

  lemma {:induction false} DotCommutes<T(!new)>(F: Field<T>, a: Vec<T>, x: Vec<T>)
    requires IsField(F) && |a| == |x|
    ensures Dot(F, a, x) == Dot(F, x, a)
    decreases |a|
  {
    if a != [] {
      At(F, a[0], x[0], F.zero);
      DotCommutes(F, a[1..], x[1..]);
    }
  }

  /** Vector a - r c. */
  function VecSub<T>(F: Field<T>, a: Vec<T>, r: T, c: Vec<T>): (d: Vec<T>)
    requires |a| == |c|
    ensures |d| == |a|
  {
    seq(|a|, i requires 0 <= i < |a| => Sub(F, a[i], F.mul(r, c[i])))
  }

  /** Hyperplane h - r k. */
  function Minus<T>(F: Field<T>, h: Hyperplane<T>, r: T, k: Hyperplane<T>): Hyperplane<T>
    requires |h.normal| == |k.normal|
  {
    Hyperplane(VecSub(F, h.normal, r, k.normal), Sub(F, h.b, F.mul(r, k.b)))
  }

  lemma {:induction false} DotSub<T(!new)>(F: Field<T>, a: Vec<T>, r: T, c: Vec<T>, x: Vec<T>)
    requires IsField(F) && |a| == |c| == |x|
    ensures Dot(F, VecSub(F, a, r, c), x) == Sub(F, Dot(F, a, x), F.mul(r, Dot(F, c, x)))
    decreases |a|
  {
    if a == [] {
      SubZero(F, F.zero, r);
    } else {
      assert VecSub(F, a, r, c)[1..] == VecSub(F, a[1..], r, c[1..]);
      DotSub(F, a[1..], r, c[1..], x[1..]);
      var ax, cx := F.mul(a[0], x[0]), F.mul(c[0], x[0]);
      var aRest, cRest := Dot(F, a[1..], x[1..]), Dot(F, c[1..], x[1..]);
      SubTimes(F, a[0], r, c[0], x[0]);
      SubAdd(F, ax, aRest, F.mul(r, cx), F.mul(r, cRest));
      At(F, r, cx, cRest);
    }
  }

  lemma ValMinus<T(!new)>(F: Field<T>, h: Hyperplane<T>, r: T, k: Hyperplane<T>, x: Vec<T>)
    requires IsField(F) && |h.normal| == |k.normal| == |x|
    ensures Val(F, Minus(F, h, r, k), x) == Sub(F, Val(F, h, x), F.mul(r, Val(F, k, x)))
  {
    var dh, dk := Dot(F, h.normal, x), Dot(F, k.normal, x);
    DotSub(F, h.normal, r, k.normal, x);
    SubAdd(F, dh, h.b, F.mul(r, dk), F.mul(r, k.b));
    At(F, r, dk, k.b);
  }

  // ----- Dropping and restoring the pivot coordinate -----

  function Drop<T>(s: seq<T>, p: nat): (r: seq<T>)
    requires p < |s|
    ensures |r| == |s| - 1
  {
    s[..p] + s[p + 1..]
  }

  function Restore<T>(s: seq<T>, p: nat, v: T): (r: seq<T>)
    requires p <= |s|
    ensures |r| == |s| + 1 && r[p] == v && Drop(r, p) == s
  {
    s[..p] + [v] + s[p..]
  }

  lemma {:induction false} DotDrop<T(!new)>(F: Field<T>, a: Vec<T>, x: Vec<T>, p: nat)
    requires IsField(F) && |a| == |x| && p < |a|
    ensures Dot(F, a, x) == F.add(F.mul(a[p], x[p]), Dot(F, Drop(a, p), Drop(x, p)))
    decreases p
  {
    if p == 0 {
      assert Drop(a, 0) == a[1..] && Drop(x, 0) == x[1..];
    } else {
      DotDrop(F, a[1..], x[1..], p - 1);
      assert Drop(a, p)[1..] == Drop(a[1..], p - 1) && Drop(x, p)[1..] == Drop(x[1..], p - 1);
      var first, pivot := F.mul(a[0], x[0]), F.mul(a[p], x[p]);
      var rest := Dot(F, Drop(a[1..], p - 1), Drop(x[1..], p - 1));
      assert Dot(F, Drop(a, p), Drop(x, p)) == F.add(first, rest);
      At(F, first, pivot, rest);
      At(F, pivot, first, rest);
    }
  }

  /** The pivot of `k`: a coordinate where its normal does not vanish. */
  ghost predicate IsPivot<T>(F: Field<T>, k: Hyperplane<T>, p: nat) {
    p < |k.normal| && k.normal[p] != F.zero
  }

  function Rescale<T>(F: Field<T>, h: Hyperplane<T>, k: Hyperplane<T>, p: nat): T
    requires p < |h.normal| == |k.normal|
  {
    F.mul(h.normal[p], F.inv(k.normal[p]))
  }

  /** `h` on `k`, in one coordinate less. */
  function Reduced<T>(F: Field<T>, h: Hyperplane<T>, k: Hyperplane<T>, p: nat): (r: Hyperplane<T>)
    requires p < |h.normal| == |k.normal|
    ensures |r.normal| == |h.normal| - 1
  {
    var m := Minus(F, h, Rescale(F, h, k, p), k);
    Hyperplane(Drop(m.normal, p), m.b)
  }

  /** The point of `k` above a point of the reduced space. */
  function Lift<T>(F: Field<T>, k: Hyperplane<T>, p: nat, y: Vec<T>): (x: Vec<T>)
    requires p < |k.normal| == |y| + 1
    ensures |x| == |y| + 1 && Drop(x, p) == y
  {
    Restore(y, p, Root(F, k.normal[p], F.add(Dot(F, Drop(k.normal, p), y), k.b)))
  }

  lemma ValAtPivot<T(!new)>(F: Field<T>, k: Hyperplane<T>, x: Vec<T>, p: nat)
    requires IsField(F) && |k.normal| == |x| && p < |x|
    ensures Val(F, k, x) ==
            F.add(F.mul(k.normal[p], x[p]), F.add(Dot(F, Drop(k.normal, p), Drop(x, p)), k.b))
  {
    DotDrop(F, k.normal, x, p);
    At(F, F.mul(k.normal[p], x[p]), Dot(F, Drop(k.normal, p), Drop(x, p)), k.b);
  }

  /** Dropping the pivot is a bijection from the points of `k` to the reduced space: a point
      lies on `k` exactly if it is the lift of what is left of it. */
  lemma OnExactlyIfLifted<T(!new)>(F: Field<T>, k: Hyperplane<T>, p: nat, x: Vec<T>)
    requires IsField(F) && |k.normal| == |x| && IsPivot(F, k, p)
    ensures Val(F, k, x) == F.zero <==> x == Lift(F, k, p, Drop(x, p))
  {
    var rest := F.add(Dot(F, Drop(k.normal, p), Drop(x, p)), k.b);
    ValAtPivot(F, k, x, p);
    RootSolves(F, k.normal[p], rest, x[p]);
    assert x == Restore(Drop(x, p), p, x[p]);
  }

  /** ...which preserves the value of every reduced hyperplane. */
  lemma ReducedKeepsValue<T(!new)>(F: Field<T>, h: Hyperplane<T>, k: Hyperplane<T>, p: nat, x: Vec<T>)
    requires IsField(F) && |h.normal| == |k.normal| == |x| && IsPivot(F, k, p)
    requires Val(F, k, x) == F.zero
    ensures Val(F, Reduced(F, h, k, p), Drop(x, p)) == Val(F, h, x)
  {
    var r := Rescale(F, h, k, p);
    var m := Minus(F, h, r, k);
    ValMinus(F, h, r, k, x);
    SubZero(F, Val(F, h, x), r);
    Eliminates(F, h.normal[p], k.normal[p]);
    ValAtPivot(F, m, x, p);
    MulZero(F, x[p]);
    var rest := Val(F, Reduced(F, h, k, p), Drop(x, p));
    At(F, F.zero, rest, rest);
    At(F, rest, F.zero, rest);
  }

  // ----- Hyperplanes that are the same up to a scalar -----

  function VecTimes<T>(F: Field<T>, c: T, a: Vec<T>): (d: Vec<T>)
    ensures |d| == |a|
  {
    seq(|a|, i requires 0 <= i < |a| => F.mul(c, a[i]))
  }

  function Times<T>(F: Field<T>, c: T, h: Hyperplane<T>): Hyperplane<T> {
    Hyperplane(VecTimes(F, c, h.normal), F.mul(c, h.b))
  }

  ghost predicate Proportional<T(!new)>(F: Field<T>, g: Hyperplane<T>, h: Hyperplane<T>) {
    exists c :: c != F.zero && g == Times(F, c, h)
  }

  lemma {:induction false} DotTimes<T(!new)>(F: Field<T>, c: T, a: Vec<T>, x: Vec<T>)
    requires IsField(F) && |a| == |x|
    ensures Dot(F, VecTimes(F, c, a), x) == F.mul(c, Dot(F, a, x))
    decreases |a|
  {
    if a == [] {
      MulZero(F, c);
    } else {
      assert VecTimes(F, c, a)[1..] == VecTimes(F, c, a[1..]);
      DotTimes(F, c, a[1..], x[1..]);
      At(F, c, a[0], x[0]);
      At(F, c, F.mul(a[0], x[0]), Dot(F, a[1..], x[1..]));
    }
  }

  lemma ValTimes<T(!new)>(F: Field<T>, c: T, h: Hyperplane<T>, x: Vec<T>)
    requires IsField(F) && |h.normal| == |x|
    ensures Val(F, Times(F, c, h), x) == F.mul(c, Val(F, h, x))
  {
    DotTimes(F, c, h.normal, x);
    At(F, c, Dot(F, h.normal, x), h.b);
  }

  lemma ProportionalSamePoints<T(!new)>(F: Field<T>, g: Hyperplane<T>, h: Hyperplane<T>, x: Vec<T>)
    requires IsField(F) && Proportional(F, g, h) && |h.normal| == |x|
    ensures |g.normal| == |x| && (Val(F, g, x) == F.zero <==> Val(F, h, x) == F.zero)
  {
    var c :| c != F.zero && g == Times(F, c, h);
    ValTimes(F, c, h, x);
    NoZeroDivisors(F, c, Val(F, h, x));
  }

  lemma ProportionalReflexive<T(!new)>(F: Field<T>, h: Hyperplane<T>)
    requires IsField(F)
    ensures Proportional(F, h, h)
  {
    forall i | 0 <= i < |h.normal|
      ensures F.mul(F.one, h.normal[i]) == h.normal[i]
    {
      At(F, F.one, h.normal[i], F.one);
      At(F, h.normal[i], F.one, F.one);
    }
    At(F, F.one, h.b, F.one);
    At(F, h.b, F.one, F.one);
    assert Times(F, F.one, h) == h;
  }
}
