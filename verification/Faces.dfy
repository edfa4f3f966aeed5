/**
 The face semigroup of a hyperplane arrangement, on points and sign vectors with
 exact real arithmetic.
 */
module Faces {
  import opened Fields
  import opened Hyperplanes
  import opened Sequences
  import opened Wrappers

  type Point = Vec<real>
  type Plane = Hyperplane<real>
  type Signs = seq<int>

  /** On which side of `h` the point lies, and how far off. */
  function Level(h: Plane, x: Point): real
    requires |h.normal| == |x|
  {
    Val(Reals(), h, x)
  }

  function SignOf(v: real): int {
    if v < 0.0 then -1 else if v > 0.0 then 1 else 0
  }

  predicate Fits(A: seq<Plane>, n: nat) {
    forall i :: 0 <= i < |A| ==> |A[i].normal| == n
  }

  /** On which side of each hyperplane the point lies. */
  function SignsAt(A: seq<Plane>, x: Point): (s: Signs)
    requires Fits(A, |x|)
    ensures |s| == |A|
  {
    seq(|A|, i requires 0 <= i < |A| => SignOf(Level(A[i], x)))
  }

  /** The product as the multiplication table computes it: the left sign, or the right one
      where the left is zero. */
  function Product(s: Signs, t: Signs): (r: Signs)
    requires |s| == |t|
    ensures |r| == |s|
  {
    seq(|s|, i requires 0 <= i < |s| => if s[i] != 0 then s[i] else t[i])
  }

  // ----- The product is realised close to the left point -----

  /** (v + eps w) / (1 + eps) */
  function Blend(v: real, w: real, eps: real): real
    requires eps > 0.0
  {
    (v + eps * w) / (1.0 + eps)
  }

  /** The point on the segment from `f` to `g` that blends them coordinate by coordinate. */
  function Toward(f: Point, g: Point, eps: real): (p: Point)
    requires |f| == |g| && eps > 0.0
    ensures |p| == |f| && forall i :: 0 <= i < |f| ==> p[i] == Blend(f[i], g[i], eps)
  {
    seq(|f|, i requires 0 <= i < |f| => Blend(f[i], g[i], eps))
  }

  lemma BlendAdds(p: real, q: real, r: real, s: real, eps: real)
    requires eps > 0.0
    ensures Blend(p, q, eps) + Blend(r, s, eps) == Blend(p + r, q + s, eps)
  {
  }

  lemma BlendOfSame(x: real, eps: real)
    requires eps > 0.0
    ensures Blend(x, x, eps) == x
  {
  }

  /** A blend is a multiple of a difference. */
  lemma BlendScales(v: real, w: real, eps: real)
    requires eps > 0.0
    ensures Blend(v, w, eps) == Reals().mul(1.0 / (1.0 + eps), Sub(Reals(), v, Reals().mul(-eps, w)))
  {
  }

  lemma TowardScales(f: Point, g: Point, eps: real)
    requires |f| == |g| && eps > 0.0
    ensures Toward(f, g, eps) == VecTimes(Reals(), 1.0 / (1.0 + eps), VecSub(Reals(), f, -eps, g))
  {
    forall i | 0 <= i < |f|
      ensures Toward(f, g, eps)[i] == VecTimes(Reals(), 1.0 / (1.0 + eps), VecSub(Reals(), f, -eps, g))[i]
    {
      BlendScales(f[i], g[i], eps);
    }
  }

  lemma DotToward(a: Vec<real>, f: Point, g: Point, eps: real)
    requires |a| == |f| == |g| && eps > 0.0
    ensures Dot(Reals(), a, Toward(f, g, eps)) == Blend(Dot(Reals(), a, f), Dot(Reals(), a, g), eps)
  {
    var F, difference := Reals(), VecSub(Reals(), f, -eps, g);
    RealsAreAField();
    TowardScales(f, g, eps);
    DotCommutes(F, a, Toward(f, g, eps));
    DotTimes(F, 1.0 / (1.0 + eps), difference, a);
    DotSub(F, f, -eps, g, a);
    DotCommutes(F, f, a);
    DotCommutes(F, g, a);
    BlendScales(Dot(F, a, f), Dot(F, a, g), eps);
  }

  lemma LevelToward(h: Plane, f: Point, g: Point, eps: real)
    requires |f| == |g| && |h.normal| == |f| && eps > 0.0
    ensures Level(h, Toward(f, g, eps)) == Blend(Level(h, f), Level(h, g), eps)
  {
    DotToward(h.normal, f, g, eps);
    BlendOfSame(h.b, eps);
    BlendAdds(Dot(Reals(), h.normal, f), Dot(Reals(), h.normal, g), h.b, h.b, eps);
  }

  /** One hyperplane: closer to `f` than this, the sign is `f`'s unless `f` lies on it. */
  function Reach(v: real, w: real): (eps: real)
    ensures eps > 0.0
  {
    var size := if w < 0.0 then -w else w;
    if v == 0.0 then 1.0
    else (if v < 0.0 then -v else v) / (size + 1.0)
  }

  lemma SignWithinReach(v: real, w: real, eps: real)
    requires 0.0 < eps < Reach(v, w)
    ensures SignOf(Blend(v, w, eps)) == if SignOf(v) != 0 then SignOf(v) else SignOf(w)
  {
    var c := 1.0 / (1.0 + eps);
    assert c > 0.0;
    assert Blend(v, w, eps) == (v + eps * w) * c;
    if v != 0.0 {
      var size := if w < 0.0 then -w else w;
      var mass := if v < 0.0 then -v else v;
      assert eps * (size + 1.0) < mass by {
        assert Reach(v, w) * (size + 1.0) == mass;
        assert (Reach(v, w) - eps) * (size + 1.0) > 0.0;
      }
      assert eps * size < mass;
      assert -(eps * size) <= eps * w <= eps * size;
    }
    SignTimesPositive(v + eps * w, c);
    if v == 0.0 {
      SignTimesPositive(w, eps);
    }
  }

  lemma SignTimesPositive(x: real, c: real)
    requires c > 0.0
    ensures SignOf(x * c) == SignOf(x) && SignOf(c * x) == SignOf(x)
  {
  }

  lemma SignsOfOneMore(A: seq<Plane>, h: Plane, x: Point)
    requires Fits(A, |x|) && |h.normal| == |x|
    ensures Fits(A + [h], |x|) && SignsAt(A + [h], x) == SignsAt(A, x) + [SignOf(Level(h, x))]
  {
  }

  lemma ProductOfOneMore(s: Signs, t: Signs, a: int, b: int)
    requires |s| == |t|
    ensures Product(s + [a], t + [b]) == Product(s, t) + [if a != 0 then a else b]
  {
  }

  lemma OneMoreRealised(A: seq<Plane>, h: Plane, f: Point, g: Point, eps: real)
    requires |f| == |g| && Fits(A, |f|) && |h.normal| == |f|
    requires 0.0 < eps < Reach(Level(h, f), Level(h, g))
    requires SignsAt(A, Toward(f, g, eps)) == Product(SignsAt(A, f), SignsAt(A, g))
    ensures SignsAt(A + [h], Toward(f, g, eps)) == Product(SignsAt(A + [h], f), SignsAt(A + [h], g))
  {
    LevelToward(h, f, g, eps);
    SignWithinReach(Level(h, f), Level(h, g), eps);
    SignsOfOneMore(A, h, Toward(f, g, eps));
    SignsOfOneMore(A, h, f);
    SignsOfOneMore(A, h, g);
    ProductOfOneMore(SignsAt(A, f), SignsAt(A, g), SignOf(Level(h, f)), SignOf(Level(h, g)));
  }

  /** For any two points there is a distance within which every point on the segment from
      `f` towards `g` lies in the product of their faces. */
  lemma {:induction false} ProductIsRealised(A: seq<Plane>, f: Point, g: Point) returns (reach: real)
    requires |f| == |g| && Fits(A, |f|)
    ensures reach > 0.0
    ensures forall eps :: 0.0 < eps < reach ==>
              SignsAt(A, Toward(f, g, eps)) == Product(SignsAt(A, f), SignsAt(A, g))
  {
    if A == [] {
      reach := 1.0;
    } else {
      var init, h := A[..|A| - 1], A[|A| - 1];
      assert A == init + [h];
      var earlier := ProductIsRealised(init, f, g);
      var mine := Reach(Level(h, f), Level(h, g));
      reach := if earlier < mine then earlier else mine;
      forall eps | 0.0 < eps < reach
        ensures SignsAt(A, Toward(f, g, eps)) == Product(SignsAt(A, f), SignsAt(A, g))
      {
        OneMoreRealised(init, h, f, g, eps);
      }
    }
  }

  /** A sign vector of an actual open face in n dimensions. */
  ghost predicate IsFace(A: seq<Plane>, n: nat, s: Signs)
    requires Fits(A, n)
  {
    exists x: Point :: |x| == n && SignsAt(A, x) == s
  }

  /** The product of two faces is a face. */
  lemma FacesAreClosed(A: seq<Plane>, n: nat, s: Signs, t: Signs)
    requires Fits(A, n) && IsFace(A, n, s) && IsFace(A, n, t)
    ensures |s| == |t| && IsFace(A, n, Product(s, t))
  {
    var f: Point :| |f| == n && SignsAt(A, f) == s;
    var g: Point :| |g| == n && SignsAt(A, g) == t;
    var reach := ProductIsRealised(A, f, g);
    assert SignsAt(A, Toward(f, g, reach / 2.0)) == Product(s, t);
  }

  // ----- A left-regular band -----

  lemma ProductAssociates(r: Signs, s: Signs, t: Signs)
    requires |r| == |s| == |t|
    ensures Product(Product(r, s), t) == Product(r, Product(s, t))
  {
  }

  lemma ProductIsLeftRegular(s: Signs, t: Signs)
    requires |s| == |t|
    ensures Product(s, s) == s && Product(Product(s, t), s) == Product(s, t)
  {
  }

  // ----- The code -----

  /** The per-hyperplane loop of `face_product`, on representative points. */
  method Sides(A: seq<Plane>, f: Point, g: Point) returns (signs: Signs)
    requires |f| == |g| && Fits(A, |f|)
    ensures signs == Product(SignsAt(A, f), SignsAt(A, g))
  {
    signs := [];
    for i := 0 to |A|
      invariant |signs| == i
      invariant forall k :: 0 <= k < i ==> signs[k] == Product(SignsAt(A, f), SignsAt(A, g))[k]
    {
      var x := Level(A[i], f);
      var side: int;
      if x < 0.0 {
        side := -1;
      } else if x > 0.0 {
        side := 1;
      } else {
        x := Level(A[i], g);
        if x < 0.0 {
          side := -1;
        } else if x > 0.0 {
          side := 1;
        } else {
          side := 0;
        }
      }
      signs := signs + [side];
    }
  }

  /** `Fs` lists the faces of the arrangement, each once. */
  ghost predicate ListsFaces(A: seq<Plane>, n: nat, Fs: seq<Signs>)
    requires Fits(A, n)
  {
    Distinct(Fs) && forall s :: s in Fs <==> IsFace(A, n, s)
  }

  method Lookup(Fs: seq<Signs>, s: Signs) returns (k: Option<nat>)
    ensures k.Some? <==> s in Fs
    ensures k.Some? ==> k.value < |Fs| && Fs[k.value] == s
  {
    for i := 0 to |Fs|
      invariant forall j :: 0 <= j < i ==> Fs[j] != s
    {
      if Fs[i] == s {
        return Some(i);
      }
    }
    return None;
  }

  /** `face_product`: the position of the product face; the search cannot come back empty. */
  method FaceProduct(A: seq<Plane>, Fs: seq<Signs>, f: Point, g: Point) returns (k: Option<nat>)
    requires |f| == |g| && Fits(A, |f|) && ListsFaces(A, |f|, Fs)
    ensures k.Some? && k.value < |Fs| && Fs[k.value] == Product(SignsAt(A, f), SignsAt(A, g))
  {
    var signs := Sides(A, f, g);
    FacesAreClosed(A, |f|, SignsAt(A, f), SignsAt(A, g));
    k := Lookup(Fs, signs);
  }

  predicate SameLength(Fs: seq<Signs>, m: nat) {
    forall i :: 0 <= i < |Fs| ==> |Fs[i]| == m
  }

  /** Row `row` names, for each face i, the face that i times `t` is. */
  ghost predicate IsRow(Fs: seq<Signs>, m: nat, t: Signs, row: seq<nat>)
    requires SameLength(Fs, m) && |t| == m && |row| <= |Fs|
  {
    forall i :: 0 <= i < |row| ==> row[i] < |Fs| && Fs[row[i]] == Product(Fs[i], t)
  }

  /** Entry [j][i] names the basis vector that e_i times e_j is. */
  ghost predicate IsTable(Fs: seq<Signs>, m: nat, table: seq<seq<nat>>)
    requires SameLength(Fs, m) && |table| <= |Fs|
  {
    forall j :: 0 <= j < |table| ==> |table[j]| == |Fs| && IsRow(Fs, m, Fs[j], table[j])
  }

  /** One matrix of `face_semigroup_algebra`: row i has its one at the position of the
      product of face i with face j.  No lookup misses. */
  method TableRow(A: seq<Plane>, n: nat, Fs: seq<Signs>, j: nat) returns (row: seq<nat>)
    requires Fits(A, n) && ListsFaces(A, n, Fs) && SameLength(Fs, |A|) && j < |Fs|
    ensures |row| == |Fs| && IsRow(Fs, |A|, Fs[j], row)
  {
    row := [];
    for i := 0 to |Fs|
      invariant |row| == i && IsRow(Fs, |A|, Fs[j], row)
    {
      assert Fs[i] in Fs && Fs[j] in Fs;
      FacesAreClosed(A, n, Fs[i], Fs[j]);
      var k := Lookup(Fs, Product(Fs[i], Fs[j]));
      row := row + [k.value];
    }
  }

  method SemigroupTable(A: seq<Plane>, n: nat, Fs: seq<Signs>) returns (table: seq<seq<nat>>)
    requires Fits(A, n) && ListsFaces(A, n, Fs)
    ensures SameLength(Fs, |A|) && |table| == |Fs| && IsTable(Fs, |A|, table)
  {
    FaceLengths(A, n, Fs);
    table := [];
    for j := 0 to |Fs|
      invariant |table| == j && IsTable(Fs, |A|, table)
    {
      var row := TableRow(A, n, Fs, j);
      table := table + [row];
    }
  }

  lemma FaceLengths(A: seq<Plane>, n: nat, Fs: seq<Signs>)
    requires Fits(A, n) && ListsFaces(A, n, Fs)
    ensures SameLength(Fs, |A|)
  {
    forall i | 0 <= i < |Fs|
      ensures |Fs[i]| == |A|
    {
      assert Fs[i] in Fs;
      var x: Point :| |x| == n && SignsAt(A, x) == Fs[i];
    }
  }

  /** The algebra is built with `assume_associative`: that is justified. */
  lemma TableAssociates(Fs: seq<Signs>, m: nat, table: seq<seq<nat>>, i: nat, j: nat, k: nat)
    requires SameLength(Fs, m) && |table| == |Fs| && IsTable(Fs, m, table) && Distinct(Fs)
    requires i < |Fs| && j < |Fs| && k < |Fs|
    ensures table[k][table[j][i]] == table[table[k][j]][i]
  {
    var left, right := table[k][table[j][i]], table[table[k][j]][i];
    assert Fs[left] == Product(Product(Fs[i], Fs[j]), Fs[k]);
    assert Fs[right] == Product(Fs[i], Product(Fs[j], Fs[k]));
    ProductAssociates(Fs[i], Fs[j], Fs[k]);
  }

  /** What the table is a table of: from any point of face i, the points towards any point of
      face j, close enough, lie in the face that entry [j][i] names. */
  lemma TableIsRealised(A: seq<Plane>, Fs: seq<Signs>, table: seq<seq<nat>>, i: nat, j: nat, f: Point, g: Point)
    returns (reach: real)
    requires |f| == |g| && Fits(A, |f|) && SameLength(Fs, |A|)
    requires |table| == |Fs| && IsTable(Fs, |A|, table) && i < |Fs| && j < |Fs|
    requires SignsAt(A, f) == Fs[i] && SignsAt(A, g) == Fs[j]
    ensures reach > 0.0 && table[j][i] < |Fs|
    ensures forall eps :: 0.0 < eps < reach ==> SignsAt(A, Toward(f, g, eps)) == Fs[table[j][i]]
  {
    reach := ProductIsRealised(A, f, g);
    assert IsRow(Fs, |A|, Fs[j], table[j]);
  }
}
