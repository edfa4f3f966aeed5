/**
 The characteristic polynomial by deletion and restriction, evaluated at the size
 of a finite base field, counts the points that lie on no hyperplane.
 */
module CharPoly {
  import opened Arrangements
  import opened Fields
  import opened Hyperplanes
  import opened Powers

  // ----- The arrangement constructor: up to scalars, as a set, in some order -----

  /** Some member of `r` stands for `h`. */
  ghost predicate StoodFor<T(!new)>(F: Field<T>, r: seq<Hyperplane<T>>, h: Hyperplane<T>) {
    exists g :: g in r && Proportional(F, g, h)
  }

  /** `g` stands for some member of `hs`. */
  ghost predicate StandsIn<T(!new)>(F: Field<T>, g: Hyperplane<T>, hs: seq<Hyperplane<T>>) {
    exists h :: h in hs && Proportional(F, g, h)
  }

  ghost predicate Represents<T(!new)>(F: Field<T>, r: seq<Hyperplane<T>>, hs: seq<Hyperplane<T>>) {
    && |r| <= |hs| && Unrelated(F, r)
    && (forall h {:trigger StoodFor(F, r, h)} :: h in hs ==> StoodFor(F, r, h))
    && (forall g {:trigger StandsIn(F, g, hs)} :: g in r ==> StandsIn(F, g, hs))
  }

  lemma ProportionalSymmetric<T(!new)>(F: Field<T>, g: Hyperplane<T>, h: Hyperplane<T>)
    requires IsField(F) && Proportional(F, g, h)
    ensures Proportional(F, h, g)
  {
    var c :| c != F.zero && g == Times(F, c, h);
    var d := F.inv(c);
    forall t
      ensures F.mul(d, F.mul(c, t)) == t
    {
      At(F, d, c, t);
      At(F, c, d, t);
      At(F, F.one, t, t);
      At(F, t, F.one, t);
    }
    assert h == Times(F, d, g);
    if d == F.zero {
      At(F, c, d, d);
      MulZero(F, c);
    }
  }

  lemma StandsInMore<T(!new)>(F: Field<T>, g: Hyperplane<T>, h: Hyperplane<T>, hs: seq<Hyperplane<T>>)
    requires StandsIn(F, g, hs) || Proportional(F, g, h)
    ensures StandsIn(F, g, [h] + hs)
  {
  }

  lemma StoodForByMore<T(!new)>(F: Field<T>, r: seq<Hyperplane<T>>, h: Hyperplane<T>, k: Hyperplane<T>)
    requires StoodFor(F, r, k) || Proportional(F, h, k)
    ensures StoodFor(F, [h] + r, k)
  {
  }

  lemma JoinKnown<T(!new)>(F: Field<T>, r: seq<Hyperplane<T>>, h: Hyperplane<T>, hs: seq<Hyperplane<T>>)
    requires Represents(F, r, hs) && StoodFor(F, r, h)
    ensures Represents(F, r, [h] + hs)
  {
    forall g | g in r
      ensures StandsIn(F, g, [h] + hs)
    {
      StandsInMore(F, g, h, hs);
    }
  }

  lemma JoinNew<T(!new)>(F: Field<T>, r: seq<Hyperplane<T>>, h: Hyperplane<T>, hs: seq<Hyperplane<T>>)
    requires IsField(F) && Represents(F, r, hs) && !StoodFor(F, r, h)
    ensures Represents(F, [h] + r, [h] + hs)
  {
    ProportionalReflexive(F, h);
    forall g | g in r
      ensures !Proportional(F, g, h) && !Proportional(F, h, g)
    {
      if Proportional(F, h, g) {
        ProportionalSymmetric(F, h, g);
      }
    }
    UnrelatedJoins(F, r, h);
    forall k | k in [h] + hs
      ensures StoodFor(F, [h] + r, k)
    {
      StoodForByMore(F, r, h, k);
    }
    forall g | g in [h] + r
      ensures StandsIn(F, g, [h] + hs)
    {
      StandsInMore(F, g, h, hs);
    }
  }

  lemma UnrelatedJoins<T(!new)>(F: Field<T>, r: seq<Hyperplane<T>>, h: Hyperplane<T>)
    requires Unrelated(F, r) && forall g :: g in r ==> !Proportional(F, g, h) && !Proportional(F, h, g)
    ensures Unrelated(F, [h] + r)
  {
  }

  lemma {:induction false} ConstructorExists<T(!new)>(F: Field<T>, hs: seq<Hyperplane<T>>)
    requires IsField(F)
    ensures exists r :: Represents(F, r, hs)
  {
    if hs == [] {
      assert Represents(F, [], hs);
    } else {
      ConstructorExists(F, hs[1..]);
      var r :| Represents(F, r, hs[1..]);
      assert hs == [hs[0]] + hs[1..];
      if StoodFor(F, r, hs[0]) {
        JoinKnown(F, r, hs[0], hs[1..]);
      } else {
        JoinNew(F, r, hs[0], hs[1..]);
      }
    }
  }

  /** Which scalar multiple stands for a hyperplane, and in which order they come, is left
      open: the results below hold for every choice. */
  ghost function Construct<T(!new)>(F: Field<T>, hs: seq<Hyperplane<T>>): (r: seq<Hyperplane<T>>)
    requires IsField(F)
    ensures Represents(F, r, hs)
  {
    ConstructorExists(F, hs);
    var r :| Represents(F, r, hs);
    r
  }

  lemma ProportionalNonZero<T(!new)>(F: Field<T>, g: Hyperplane<T>, h: Hyperplane<T>)
    requires IsField(F) && Proportional(F, g, h) && NonZero(F, h.normal)
    ensures |g.normal| == |h.normal| && NonZero(F, g.normal)
  {
    var c :| c != F.zero && g == Times(F, c, h);
    var j :| 0 <= j < |h.normal| && h.normal[j] != F.zero;
    NoZeroDivisors(F, c, h.normal[j]);
    assert g.normal[j] != F.zero;
  }

  lemma ConstructIsArrangement<T(!new)>(F: Field<T>, hs: seq<Hyperplane<T>>, n: nat)
    requires IsField(F) && AllHyperplanes(F, hs, n)
    ensures IsArrangement(F, Construct(F, hs), n)
  {
    var r := Construct(F, hs);
    forall i | 0 <= i < |r|
      ensures |r[i].normal| == n && NonZero(F, r[i].normal)
    {
      assert r[i] in r;
      assert StandsIn(F, r[i], hs);
      var h :| h in hs && Proportional(F, r[i], h);
      ProportionalNonZero(F, r[i], h);
    }
  }

  lemma ConstructSamePoints<T(!new)>(F: Field<T>, hs: seq<Hyperplane<T>>, n: nat, x: Vec<T>)
    requires IsField(F) && AllHyperplanes(F, hs, n) && |x| == n
    ensures (forall h :: h in hs ==> |h.normal| == n) && (forall g :: g in Construct(F, hs) ==> |g.normal| == n)
    ensures Off(F, Construct(F, hs), x) <==> Off(F, hs, x)
  {
    var r := Construct(F, hs);
    ConstructIsArrangement(F, hs, n);
    forall g, h | g in r && h in hs && Proportional(F, g, h)
      ensures |g.normal| == n && |h.normal| == n
      ensures Val(F, g, x) == F.zero <==> Val(F, h, x) == F.zero
    {
      ProportionalSamePoints(F, g, h, x);
    }
    forall h | h in hs && Off(F, r, x)
      ensures Val(F, h, x) != F.zero
    {
      assert StoodFor(F, r, h);
      var g :| g in r && Proportional(F, g, h);
    }
    forall g | g in r && Off(F, hs, x)
      ensures Val(F, g, x) != F.zero
    {
      assert StandsIn(F, g, hs);
      var h :| h in hs && Proportional(F, g, h);
    }
  }

  // ----- The recursion -----

  ghost predicate Parallel<T(!new)>(F: Field<T>, g: Hyperplane<T>, h: Hyperplane<T>) {
    exists c :: g.normal == VecTimes(F, c, h.normal)
  }

  /** Rank one: the normals span a line. */
  ghost predicate RankOne<T(!new)>(F: Field<T>, A: seq<Hyperplane<T>>) {
    A != [] && forall h :: h in A ==> Parallel(F, h, A[0])
  }

  ghost function Pivot<T>(F: Field<T>, k: Hyperplane<T>): (p: nat)
    requires NonZero(F, k.normal)
    ensures IsPivot(F, k, p)
  {
    var p :| 0 <= p < |k.normal| && k.normal[p] != F.zero;
    p
  }

  /** The arrangement that `restriction` to the first hyperplane constructs. */
  ghost function Restrict<T(!new)>(F: Field<T>, A: seq<Hyperplane<T>>, n: nat): (R: seq<Hyperplane<T>>)
    requires IsField(F) && IsArrangement(F, A, n) && A != []
    ensures n > 0 && IsArrangement(F, R, n - 1) && |R| < |A|
  {
    var p := Pivot(F, A[0]);
    RestMembers(F, A, n);
    var hs := Restricted(F, A, A[0], p);
    RestrictedHyperplanes(F, A, n, p);
    ConstructIsArrangement(F, hs, n - 1);
    Construct(F, hs)
  }

  lemma RestrictedHyperplanes<T(!new)>(F: Field<T>, A: seq<Hyperplane<T>>, n: nat, p: nat)
    requires IsField(F) && IsArrangement(F, A, n) && A != [] && IsPivot(F, A[0], p)
    requires forall h :: h in A ==> |h.normal| == n
    ensures n > 0 && AllHyperplanes(F, Restricted(F, A, A[0], p), n - 1)
    ensures |Restricted(F, A, A[0], p)| < |A|
  {
    var hs := Restricted(F, A, A[0], p);
    forall i | 0 <= i < |hs|
      ensures |hs[i].normal| == n - 1 && NonZero(F, hs[i].normal)
    {
      InRestricted(F, A, A[0], p, hs[i]);
      assert hs[i] in hs;
    }
    SelfVanishes(F, A[0], p);
    RestrictedIsShorter(F, A[1..], A[0], p);
  }

  /** The characteristic polynomial at `q`. */
  ghost function CharPolyAt<T(!new)>(F: Field<T>, A: seq<Hyperplane<T>>, n: nat, q: int): int
    requires IsField(F) && IsArrangement(F, A, n)
    decreases |A|
  {
    if RankOne(F, A) then
      RestMembers(F, A, n);
      assert n > 0 by { var p := Pivot(F, A[0]); }
      Power(q, n - 1) * (q - |A|)
    else if A == [] then 1
    else
      RestMembers(F, A, n);
      CharPolyAt(F, A[1..], n, q) - CharPolyAt(F, Restrict(F, A, n), n - 1, q)
  }

  lemma CharPolyStep<T(!new)>(F: Field<T>, A: seq<Hyperplane<T>>, n: nat, q: int)
    requires IsField(F) && IsArrangement(F, A, n) && A != [] && !RankOne(F, A)
    ensures n > 0 && IsArrangement(F, A[1..], n)
    ensures CharPolyAt(F, A, n, q) == CharPolyAt(F, A[1..], n, q) - CharPolyAt(F, Restrict(F, A, n), n - 1, q)
  {
  }

  lemma ParallelToItself<T(!new)>(F: Field<T>, k: Hyperplane<T>)
    requires IsField(F)
    ensures Parallel(F, k, k)
  {
    ProportionalReflexive(F, k);
    var c :| c != F.zero && k == Times(F, c, k);
  }

  /** Reduction wipes out exactly the normals parallel to the chosen one. */
  lemma OnlyParallelsVanish<T(!new)>(F: Field<T>, h: Hyperplane<T>, k: Hyperplane<T>, p: nat)
    requires IsField(F) && |h.normal| == |k.normal| && IsPivot(F, k, p)
    requires AllZero(F, Reduced(F, h, k, p).normal)
    ensures Parallel(F, h, k)
  {
    var r := Rescale(F, h, k, p);
    var m := Minus(F, h, r, k);
    Eliminates(F, h.normal[p], k.normal[p]);
    forall i | 0 <= i < |h.normal|
      ensures h.normal[i] == F.mul(r, k.normal[i])
    {
      if i < p {
        assert Drop(m.normal, p)[i] == m.normal[i];
      } else if i > p {
        assert Drop(m.normal, p)[i - 1] == m.normal[i];
      }
      SubIsZero(F, h.normal[i], F.mul(r, k.normal[i]));
    }
    assert h.normal == VecTimes(F, r, k.normal);
  }

  lemma OtherDirection<T(!new)>(F: Field<T>, A: seq<Hyperplane<T>>) returns (h: Hyperplane<T>)
    requires IsField(F) && A != [] && !RankOne(F, A)
    ensures h in A[1..] && h in A && !Parallel(F, h, A[0])
  {
    ParallelToItself(F, A[0]);
    h :| h in A && !Parallel(F, h, A[0]);
  }

  lemma ConstructNonEmpty<T(!new)>(F: Field<T>, hs: seq<Hyperplane<T>>)
    requires IsField(F) && hs != []
    ensures Construct(F, hs) != []
  {
    assert hs[0] in hs;
    assert StoodFor(F, Construct(F, hs), hs[0]);
  }

  /** Started on a non-empty arrangement the recursion never meets an empty one, so the
      rank-zero case, which answers 1 in every dimension, is never taken. */
  lemma NeverRankZero<T(!new)>(F: Field<T>, A: seq<Hyperplane<T>>, n: nat)
    requires IsField(F) && IsArrangement(F, A, n) && A != [] && !RankOne(F, A)
    ensures A[1..] != [] && Restrict(F, A, n) != []
  {
    var k, p := A[0], Pivot(F, A[0]);
    RestMembers(F, A, n);
    var h := OtherDirection(F, A);
    var g := Reduced(F, h, k, p);
    if AllZero(F, g.normal) {
      OnlyParallelsVanish(F, h, k, p);
    }
    InRestricted(F, A, k, p, g);
    ConstructNonEmpty(F, Restricted(F, A, k, p));
  }

  // ----- Counting -----

  ghost function AllPoints<T(!new)>(all: set<T>, n: nat): (s: set<Vec<T>>)
    ensures forall x :: x in s ==> |x| == n
  {
    if n == 0 then {[]} else Prepended(all, AllPoints(all, n - 1))
  }

  ghost function Prepended<T(!new)>(s: set<T>, ys: set<Vec<T>>): set<Vec<T>> {
    set a, y | a in s && y in ys :: [a] + y
  }

  /** `all` is the whole carrier: the base field is finite. */
  ghost predicate IsAll<T(!new)>(all: set<T>) {
    forall a: T :: a in all
  }

  lemma {:induction false} EveryPoint<T(!new)>(all: set<T>, n: nat, x: Vec<T>)
    requires IsAll(all) && |x| == n
    ensures x in AllPoints(all, n)
  {
    if n > 0 {
      EveryPoint(all, n - 1, x[1..]);
      assert x == [x[0]] + x[1..];
    } else {
      assert x == [];
    }
  }

  /** Sets in bijection have the same size. */
  lemma {:induction false} SameSize<A(!new), B(!new)>(s: set<A>, t: set<B>, f: A -> B)
    requires forall x :: x in s ==> f(x) in t
    requires forall x, y :: x in s && y in s && f(x) == f(y) ==> x == y
    requires forall z :: z in t ==> exists x :: x in s && f(x) == z
    ensures |s| == |t|
    decreases |s|
  {
    if s == {} {
      assert forall z :: z !in t;
    } else {
      var x :| x in s;
      forall z | z in t - {f(x)}
        ensures exists y :: y in s - {x} && f(y) == z
      {
        var y :| y in s && f(y) == z;
        assert y in s - {x};
      }
      SameSize(s - {x}, t - {f(x)}, f);
    }
  }

  lemma CountRow<T(!new)>(a: T, ys: set<Vec<T>>)
    ensures |Prepended({a}, ys)| == |ys|
  {
    forall y | y in ys
      ensures ([a] + y)[1..] == y && [a] + y in Prepended({a}, ys)
    {
    }
    SameSize(ys, Prepended({a}, ys), y => [a] + y);
  }

  lemma ProductSplits<T(!new)>(s: set<T>, a: T, ys: set<Vec<T>>)
    requires a in s
    ensures Prepended(s, ys) == Prepended(s - {a}, ys) + Prepended({a}, ys)
    ensures Prepended(s - {a}, ys) !! Prepended({a}, ys)
  {
    assert forall x :: x in Prepended({a}, ys) ==> x[0] == a;
    assert forall x :: x in Prepended(s - {a}, ys) ==> x[0] != a;
  }

  lemma {:induction false} CountProduct<T(!new)>(s: set<T>, ys: set<Vec<T>>)
    ensures |Prepended(s, ys)| == |s| * |ys|
    decreases |s|
  {
    if s == {} {
      assert Prepended(s, ys) == {};
    } else {
      var a :| a in s;
      var rest := s - {a};
      CountProduct(rest, ys);
      CountRow(a, ys);
      ProductSplits(s, a, ys);
      assert |Prepended(s, ys)| == |rest| * |ys| + |ys|;
      assert |s| == |rest| + 1;
      OneMoreTimes(|rest|, |ys|);
    }
  }

  lemma OneMoreTimes(m: nat, k: nat)
    ensures (m + 1) * k == m * k + k
  {
  }

  lemma {:induction false} CountAllPoints<T(!new)>(all: set<T>, n: nat)
    ensures |AllPoints(all, n)| == Power(|all|, n)
  {
    if n > 0 {
      CountAllPoints(all, n - 1);
      CountProduct(all, AllPoints(all, n - 1));
    }
  }

  ghost function OffSet<T(!new)>(F: Field<T>, A: seq<Hyperplane<T>>, n: nat, all: set<T>): set<Vec<T>>
    requires forall h :: h in A ==> |h.normal| == n
  {
    set x | x in AllPoints(all, n) && Off(F, A, x)
  }

  ghost function OnSet<T(!new)>(F: Field<T>, k: Hyperplane<T>, all: set<T>): set<Vec<T>> {
    set x | x in AllPoints(all, |k.normal|) && Val(F, k, x) == F.zero
  }

  lemma InOnSet<T(!new)>(F: Field<T>, k: Hyperplane<T>, all: set<T>, x: Vec<T>)
    requires IsAll(all)
    ensures x in OnSet(F, k, all) <==> |x| == |k.normal| && Val(F, k, x) == F.zero
  {
    if |x| == |k.normal| {
      EveryPoint(all, |k.normal|, x);
    }
  }

  lemma InOffSet<T(!new)>(F: Field<T>, A: seq<Hyperplane<T>>, n: nat, all: set<T>, x: Vec<T>)
    requires IsAll(all) && forall h :: h in A ==> |h.normal| == n
    ensures x in OffSet(F, A, n, all) <==> |x| == n && Off(F, A, x)
  {
    if |x| == n {
      EveryPoint(all, n, x);
    }
  }

  lemma LiftLandsOn<T(!new)>(F: Field<T>, k: Hyperplane<T>, p: nat, all: set<T>, y: Vec<T>)
    requires IsField(F) && IsAll(all) && IsPivot(F, k, p) && |y| + 1 == |k.normal|
    ensures Lift(F, k, p, y) in OnSet(F, k, all)
  {
    OnExactlyIfLifted(F, k, p, Lift(F, k, p, y));
    InOnSet(F, k, all, Lift(F, k, p, y));
  }

  lemma OnIsLift<T(!new)>(F: Field<T>, k: Hyperplane<T>, p: nat, all: set<T>, x: Vec<T>)
    requires IsField(F) && IsAll(all) && IsPivot(F, k, p) && x in OnSet(F, k, all)
    ensures |x| == |k.normal| && Drop(x, p) in AllPoints(all, |k.normal| - 1)
    ensures Lift(F, k, p, Drop(x, p)) == x
  {
    InOnSet(F, k, all, x);
    OnExactlyIfLifted(F, k, p, x);
    EveryPoint(all, |k.normal| - 1, Drop(x, p));
  }

  /** `on` consists of the lifts of the points in `below`. */
  ghost predicate AreLifts<T(!new)>(F: Field<T>, k: Hyperplane<T>, p: nat, on: set<Vec<T>>, below: set<Vec<T>>)
    requires p < |k.normal|
  {
    && (forall x :: x in on ==> |x| == |k.normal| && Drop(x, p) in below)
    && (forall x :: x in on ==> |x| == |k.normal| && Lift(F, k, p, Drop(x, p)) == x)
    && (forall y :: y in below ==> |y| + 1 == |k.normal| && Lift(F, k, p, y) in on)
  }

  /** Lifting is a bijection, so it keeps the count. */
  lemma LiftsSameSize<T(!new)>(F: Field<T>, k: Hyperplane<T>, p: nat, on: set<Vec<T>>, below: set<Vec<T>>)
    requires p < |k.normal| && AreLifts(F, k, p, on, below)
    ensures |on| == |below|
  {
    var lift := (y: Vec<T>) => if |y| + 1 == |k.normal| then Lift(F, k, p, y) else y;
    forall y, z | y in below && z in below && lift(y) == lift(z)
      ensures y == z
    {
      assert Drop(lift(y), p) == y && Drop(lift(z), p) == z;
    }
    forall x | x in on
      ensures exists y :: y in below && lift(y) == x
    {
      assert lift(Drop(x, p)) == x;
    }
    SameSize(below, on, lift);
  }

  lemma HyperplaneIsLifts<T(!new)>(F: Field<T>, k: Hyperplane<T>, p: nat, all: set<T>)
    requires IsField(F) && IsAll(all) && IsPivot(F, k, p)
    ensures |OnSet(F, k, all)| == |AllPoints(all, |k.normal| - 1)|
  {
    var space, on := AllPoints(all, |k.normal| - 1), OnSet(F, k, all);
    forall x | x in on
      ensures |x| == |k.normal| && Drop(x, p) in space && Lift(F, k, p, Drop(x, p)) == x
    {
      OnIsLift(F, k, p, all, x);
    }
    forall y | y in space
      ensures Lift(F, k, p, y) in on
    {
      LiftLandsOn(F, k, p, all, y);
    }
    LiftsSameSize(F, k, p, on, space);
  }

  /** A hyperplane has as many points as the space of one dimension less. */
  lemma CountHyperplane<T(!new)>(F: Field<T>, k: Hyperplane<T>, all: set<T>)
    requires IsField(F) && IsAll(all) && NonZero(F, k.normal)
    ensures |k.normal| > 0 && |OnSet(F, k, all)| == Power(|all|, |k.normal| - 1)
  {
    HyperplaneIsLifts(F, k, Pivot(F, k), all);
    CountAllPoints(all, |k.normal| - 1);
  }

  /** Points of the first hyperplane off all the others. */
  ghost function OnFirstOffRest<T(!new)>(F: Field<T>, A: seq<Hyperplane<T>>, n: nat, all: set<T>): set<Vec<T>>
    requires A != [] && forall h :: h in A ==> |h.normal| == n
  {
    assert A[0] in A && forall h :: h in A[1..] ==> h in A;
    set x | x in AllPoints(all, n) && Off(F, A[1..], x) && Val(F, A[0], x) == F.zero
  }

  lemma OffSplits<T(!new)>(F: Field<T>, A: seq<Hyperplane<T>>, n: nat, all: set<T>)
    requires A != [] && forall h :: h in A ==> |h.normal| == n
    ensures forall h :: h in A[1..] ==> |h.normal| == n
    ensures |OffSet(F, A[1..], n, all)| == |OffSet(F, A, n, all)| + |OnFirstOffRest(F, A, n, all)|
  {
    assert forall h :: h in A[1..] ==> h in A;
    assert forall h :: h in A <==> h == A[0] || h in A[1..];
    var off, on := OffSet(F, A, n, all), OnFirstOffRest(F, A, n, all);
    assert OffSet(F, A[1..], n, all) == off + on;
    assert off !! on;
  }

  /** The bijection of deletion and restriction, counted. */
  lemma CountRestriction<T(!new)>(F: Field<T>, A: seq<Hyperplane<T>>, n: nat, all: set<T>)
    requires IsField(F) && IsAll(all) && IsArrangement(F, A, n) && A != []
    ensures forall h :: h in A ==> |h.normal| == n
    ensures forall g :: g in Restrict(F, A, n) ==> |g.normal| == n - 1
    ensures |OnFirstOffRest(F, A, n, all)| == |OffSet(F, Restrict(F, A, n), n - 1, all)|
  {
    RestMembers(F, A, n);
    var R := Restrict(F, A, n);
    var on, off := OnFirstOffRest(F, A, n, all), OffSet(F, R, n - 1, all);
    var k, p := A[0], Pivot(F, A[0]);
    forall x | x in on
      ensures Drop(x, p) in off && Lift(F, k, p, Drop(x, p)) == x
    {
      OnIsLiftOfOff(F, A, n, all, x);
    }
    forall y | y in off
      ensures Lift(F, k, p, y) in on
    {
      OnIsLiftOfOff(F, A, n, all, Lift(F, k, p, y));
    }
    LiftsSameSize(F, k, p, on, off);
  }

  lemma InOnFirst<T(!new)>(F: Field<T>, A: seq<Hyperplane<T>>, n: nat, all: set<T>, x: Vec<T>)
    requires IsAll(all) && A != [] && |x| == n && forall h :: h in A ==> |h.normal| == n
    ensures forall h :: h in A[1..] ==> h in A
    ensures A[0] in A && (x in OnFirstOffRest(F, A, n, all) <==> Off(F, A[1..], x) && Val(F, A[0], x) == F.zero)
  {
    EveryPoint(all, n, x);
  }

  lemma OffRestrict<T(!new)>(F: Field<T>, A: seq<Hyperplane<T>>, n: nat, y: Vec<T>)
    requires IsField(F) && IsArrangement(F, A, n) && A != [] && |y| + 1 == n
    ensures forall h :: h in A ==> |h.normal| == n
    ensures forall g :: g in Restrict(F, A, n) ==> |g.normal| == n - 1
    ensures forall g :: g in Restricted(F, A, A[0], Pivot(F, A[0])) ==> |g.normal| == n - 1
    ensures Off(F, Restrict(F, A, n), y) <==> Off(F, Restricted(F, A, A[0], Pivot(F, A[0])), y)
  {
    RestMembers(F, A, n);
    RestrictedHyperplanes(F, A, n, Pivot(F, A[0]));
    ConstructSamePoints(F, Restricted(F, A, A[0], Pivot(F, A[0])), n - 1, y);
  }

  lemma OnIsLiftOfOff<T(!new)>(F: Field<T>, A: seq<Hyperplane<T>>, n: nat, all: set<T>, x: Vec<T>)
    requires IsField(F) && IsAll(all) && IsArrangement(F, A, n) && A != [] && |x| == n
    ensures forall h :: h in A ==> |h.normal| == n
    ensures forall g :: g in Restrict(F, A, n) ==> |g.normal| == n - 1
    ensures var p := Pivot(F, A[0]);
            x in OnFirstOffRest(F, A, n, all) <==>
            x == Lift(F, A[0], p, Drop(x, p)) && Drop(x, p) in OffSet(F, Restrict(F, A, n), n - 1, all)
  {
    var p := Pivot(F, A[0]);
    DeletionRestriction(F, A, n, p, x);
    OffRestrict(F, A, n, Drop(x, p));
    InOnFirst(F, A, n, all, x);
    InOffSet(F, Restrict(F, A, n), n - 1, all, Drop(x, p));
  }

  // ----- Rank one: parallel hyperplanes do not meet -----

  lemma ParallelsDoNotMeet<T(!new)>(F: Field<T>, g: Hyperplane<T>, h: Hyperplane<T>, x: Vec<T>)
    requires IsField(F) && |h.normal| == |g.normal| == |x| && NonZero(F, g.normal)
    requires Parallel(F, g, h) && !Proportional(F, g, h) && Val(F, h, x) == F.zero
    ensures Val(F, g, x) != F.zero
  {
    var c :| g.normal == VecTimes(F, c, h.normal);
    ValTimes(F, c, h, x);
    MulZero(F, c);
    if Val(F, g, x) == F.zero {
      Cancel(F, Dot(F, g.normal, x), g.b, F.mul(c, h.b));
      assert g == Times(F, c, h);
      if c == F.zero {
        var i :| 0 <= i < |g.normal| && g.normal[i] != F.zero;
        MulZero(F, h.normal[i]);
      }
    }
  }

  ghost predicate AllParallel<T(!new)>(F: Field<T>, A: seq<Hyperplane<T>>) {
    forall i, j :: 0 <= i < |A| && 0 <= j < |A| ==> Parallel(F, A[i], A[j])
  }

  lemma ParallelPair<T(!new)>(F: Field<T>, g: Hyperplane<T>, h: Hyperplane<T>, k: Hyperplane<T>)
    requires IsField(F) && Parallel(F, g, k) && Parallel(F, h, k) && NonZero(F, h.normal)
    ensures Parallel(F, g, h)
  {
    var c :| g.normal == VecTimes(F, c, k.normal);
    var d :| h.normal == VecTimes(F, d, k.normal);
    var j :| 0 <= j < |h.normal| && h.normal[j] != F.zero;
    MulZero(F, k.normal[j]);
    var e := F.mul(c, F.inv(d));
    forall i | 0 <= i < |g.normal|
      ensures g.normal[i] == F.mul(e, h.normal[i])
    {
      var t := k.normal[i];
      At(F, c, F.inv(d), F.mul(d, t));
      At(F, F.inv(d), d, t);
      At(F, d, F.inv(d), t);
      At(F, F.one, t, t);
      At(F, t, F.one, t);
    }
    assert g.normal == VecTimes(F, e, h.normal);
  }

  lemma RankOneIsParallel<T(!new)>(F: Field<T>, A: seq<Hyperplane<T>>, n: nat)
    requires IsField(F) && AllHyperplanes(F, A, n) && RankOne(F, A)
    ensures AllParallel(F, A)
  {
    forall i, j | 0 <= i < |A| && 0 <= j < |A|
      ensures Parallel(F, A[i], A[j])
    {
      assert A[i] in A && A[j] in A;
      ParallelPair(F, A[i], A[j], A[0]);
    }
  }

  /** Every point of the first of some parallel hyperplanes is off all the others. */
  lemma FirstIsClear<T(!new)>(F: Field<T>, A: seq<Hyperplane<T>>, n: nat, all: set<T>)
    requires IsField(F) && IsAll(all) && IsArrangement(F, A, n) && A != [] && AllParallel(F, A)
    ensures forall h :: h in A ==> |h.normal| == n
    ensures OnFirstOffRest(F, A, n, all) == OnSet(F, A[0], all)
  {
    RestMembers(F, A, n);
    assert |A[0].normal| == n;
    forall x | x in OnSet(F, A[0], all)
      ensures x in OnFirstOffRest(F, A, n, all)
    {
      InOnSet(F, A[0], all, x);
      InOnFirst(F, A, n, all, x);
      forall h | h in A[1..]
        ensures Val(F, h, x) != F.zero
      {
        var i :| 1 <= i < |A| && A[i] == h;
        ParallelsDoNotMeet(F, h, A[0], x);
      }
    }
  }

  lemma {:induction false} CountParallels<T(!new)>(F: Field<T>, A: seq<Hyperplane<T>>, n: nat, all: set<T>)
    requires IsField(F) && IsAll(all) && IsArrangement(F, A, n) && AllParallel(F, A) && n > 0
    ensures forall h :: h in A ==> |h.normal| == n
    ensures |OffSet(F, A, n, all)| == Power(|all|, n) - |A| * Power(|all|, n - 1)
    decreases |A|
  {
    if A == [] {
      assert OffSet(F, A, n, all) == AllPoints(all, n);
      CountAllPoints(all, n);
    } else {
      RestMembers(F, A, n);
      CountParallels(F, A[1..], n, all);
      OffSplits(F, A, n, all);
      FirstIsClear(F, A, n, all);
      CountHyperplane(F, A[0], all);
      OneMoreTimes(|A| - 1, Power(|all|, n - 1));
    }
  }

  /** The finite field method: over a field with q elements, the characteristic polynomial
      of a non-empty arrangement, computed by deletion and restriction and evaluated at q,
      is the number of points that lie on no hyperplane.  The answer therefore depends
      neither on the order of the hyperplanes nor on the pivots or scalars chosen. */
  lemma {:induction false} CharPolyCounts<T(!new)>(F: Field<T>, A: seq<Hyperplane<T>>, n: nat, all: set<T>)
    requires IsField(F) && IsAll(all) && IsArrangement(F, A, n) && A != []
    ensures forall h :: h in A ==> |h.normal| == n
    ensures CharPolyAt(F, A, n, |all|) == |OffSet(F, A, n, all)|
    decreases |A|
  {
    RestMembers(F, A, n);
    var p := Pivot(F, A[0]);
    if RankOne(F, A) {
      RankOneIsParallel(F, A, n);
      CountParallels(F, A, n, all);
      RankOneArithmetic(|all|, Power(|all|, n - 1), |A|);
    } else {
      NeverRankZero(F, A, n);
      CharPolyStep(F, A, n, |all|);
      CharPolyCounts(F, A[1..], n, all);
      CharPolyCounts(F, Restrict(F, A, n), n - 1, all);
      OffSplits(F, A, n, all);
      CountRestriction(F, A, n, all);
    }
  }

  lemma RankOneArithmetic(q: int, m: int, k: int)
    ensures q * m - k * m == m * (q - k)
  {
  }

  lemma {:induction false} PowerExceedsOne(q: nat, n: nat)
    requires q >= 2 && n > 0
    ensures Power(q, n) >= 2
  {
    if n > 1 {
      PowerExceedsOne(q, n - 1);
      assert q * Power(q, n - 1) >= 2 * Power(q, n - 1);
    }
  }

  /** The empty arrangement answers 1 in every dimension, so there the count is right only
      in dimension zero: exactly what the guard on rank zero decides. */
  lemma CharPolyCountsExactlyWhen<T(!new)>(F: Field<T>, A: seq<Hyperplane<T>>, n: nat, all: set<T>)
    requires IsField(F) && IsAll(all) && IsArrangement(F, A, n)
    ensures forall h :: h in A ==> |h.normal| == n
    ensures CharPolyAt(F, A, n, |all|) == |OffSet(F, A, n, all)| <==> A != [] || n == 0
  {
    if A != [] {
      CharPolyCounts(F, A, n, all);
    } else {
      assert OffSet(F, A, n, all) == AllPoints(all, n);
      CountAllPoints(all, n);
      assert |all| >= 2 by {
        assert {F.zero, F.one} <= all;
        AtLeastTwo(F.zero, F.one, all);
      }
      if n > 0 {
        PowerExceedsOne(|all|, n);
      }
    }
  }

  lemma AtLeastTwo<T>(a: T, b: T, s: set<T>)
    requires a != b && {a, b} <= s
    ensures |s| >= 2
  {
    var rest := s - {a, b};
    assert s == rest + {a, b} && rest !! {a, b};
    assert |{a, b}| == 2;
  }

  /** An input that shows it: the line over the two-element field has two points. */
  lemma EmptyArrangementMiscounts()
    ensures IsField(GF2()) && CharPolyAt(GF2(), [], 1, 2) == 1
    ensures |OffSet(GF2(), [], 1, {false, true})| == 2
  {
    GF2IsField();
    var all := {false, true};
    CountAllPoints(all, 1);
    assert OffSet(GF2(), [], 1, all) == AllPoints(all, 1);
    assert Power(2, 1) == 2 * Power(2, 0);
  }
}
