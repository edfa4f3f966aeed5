/**
 Point sets up to a finite permutation group: one representative per orbit, the
 one whose sorted list of points is lexicographically least.  Points are
 numbered in sorted order, so index sets compare as the point sets do.
 */
module Orbits {
  import opened Sequences

  type Perm = seq<nat>
  type IndexSet = set<nat>

  // ----- The action of a permutation group on sets of indices -----

  predicate IsPerm(g: Perm, n: nat) {
    && |g| == n
    && (forall i :: 0 <= i < n ==> g[i] < n)
    && (forall i, j :: 0 <= i < j < n ==> g[i] != g[j])
  }

  predicate InRange(x: IndexSet, n: nat) {
    forall i :: i in x ==> i < n
  }

  function Image(g: Perm, x: IndexSet): IndexSet
    requires InRange(x, |g|)
  {
    set i | i in x :: g[i]
  }

  function Identity(n: nat): Perm {
    seq(n, i => i)
  }

  function Compose(g: Perm, h: Perm): Perm {
    seq(|h|, i requires 0 <= i < |h| => if h[i] < |g| then g[h[i]] else 0)
  }

  ghost predicate HasInverse(group: seq<Perm>, n: nat, g: Perm) {
    exists h :: h in group && Compose(h, g) == Identity(n)
  }

  ghost predicate IsGroup(group: seq<Perm>, n: nat) {
    && (forall g :: g in group ==> IsPerm(g, n))
    && Identity(n) in group
    && (forall g, h {:trigger Compose(g, h)} :: g in group && h in group ==> Compose(g, h) in group)
    && (forall g {:trigger HasInverse(group, n, g)} :: g in group ==> HasInverse(group, n, g))
  }

  /** `g` takes `x` to `y`, point by point. */
  ghost predicate Takes(g: Perm, x: IndexSet, y: IndexSet)
    requires InRange(x, |g|)
  {
    forall i :: i in y <==> exists j :: j in x && g[j] == i
  }

  /** A permutation keeps the number of points. */
  lemma {:induction false} ImageSize(g: Perm, n: nat, x: IndexSet)
    requires IsPerm(g, n) && InRange(x, n)
    ensures |Image(g, x)| == |x|
    decreases |x|
  {
    if x == {} {
      assert Image(g, x) == {};
    } else {
      var i :| i in x;
      var rest := x - {i};
      ImageSize(g, n, rest);
      assert g[i] !in Image(g, rest);
      assert Image(g, x) == Image(g, rest) + {g[i]};
    }
  }

  ghost function Orbit(group: seq<Perm>, n: nat, x: IndexSet): set<IndexSet>
    requires IsGroup(group, n) && InRange(x, n)
  {
    set g | g in group :: Image(g, x)
  }

  /** The orbit: where the elements of the group take `x`. */
  lemma InOrbitExactly(group: seq<Perm>, n: nat, x: IndexSet, y: IndexSet)
    requires IsGroup(group, n) && InRange(x, n)
    ensures y in Orbit(group, n, x) <==> exists g :: g in group && Takes(g, x, y)
  {
    forall g | g in group
      ensures Takes(g, x, y) <==> y == Image(g, x)
    {
      assert Takes(g, x, Image(g, x));
      if Takes(g, x, y) {
        assert forall i :: i in y <==> i in Image(g, x);
      }
    }
  }

  lemma ImageOfIdentity(n: nat, x: IndexSet)
    requires InRange(x, n)
    ensures Image(Identity(n), x) == x
  {
  }

  lemma ImageInRange(g: Perm, n: nat, x: IndexSet)
    requires IsPerm(g, n) && InRange(x, n)
    ensures InRange(Image(g, x), n)
  {
  }

  lemma ImageOfCompose(g: Perm, h: Perm, n: nat, x: IndexSet)
    requires IsPerm(g, n) && IsPerm(h, n) && InRange(x, n)
    ensures InRange(Image(h, x), n) && Image(Compose(g, h), x) == Image(g, Image(h, x))
  {
  }

  lemma InOwnOrbit(group: seq<Perm>, n: nat, x: IndexSet)
    requires IsGroup(group, n) && InRange(x, n)
    ensures x in Orbit(group, n, x)
  {
    ImageOfIdentity(n, x);
    assert Image(Identity(n), x) in Orbit(group, n, x);
  }

  lemma OrbitInside(group: seq<Perm>, n: nat, x: IndexSet, y: IndexSet)
    requires IsGroup(group, n) && InRange(x, n) && y in Orbit(group, n, x)
    ensures InRange(y, n) && Orbit(group, n, y) <= Orbit(group, n, x)
  {
    var g :| g in group && y == Image(g, x);
    ImageInRange(g, n, x);
    forall z | z in Orbit(group, n, y)
      ensures z in Orbit(group, n, x)
    {
      var h :| h in group && z == Image(h, y);
      ImageOfCompose(h, g, n, x);
      assert z == Image(Compose(h, g), x) && Compose(h, g) in group;
    }
  }

  lemma OrbitSymmetric(group: seq<Perm>, n: nat, x: IndexSet, y: IndexSet)
    requires IsGroup(group, n) && InRange(x, n) && y in Orbit(group, n, x)
    ensures InRange(y, n) && x in Orbit(group, n, y)
  {
    var g :| g in group && y == Image(g, x);
    ImageInRange(g, n, x);
    assert HasInverse(group, n, g);
    var h :| h in group && Compose(h, g) == Identity(n);
    ImageOfCompose(h, g, n, x);
    ImageOfIdentity(n, x);
    assert x == Image(h, y);
  }

  /** Orbits are the classes of an equivalence: sets in one orbit have the same orbit. */
  lemma OrbitsCoincide(group: seq<Perm>, n: nat, x: IndexSet, y: IndexSet)
    requires IsGroup(group, n) && InRange(x, n) && y in Orbit(group, n, x)
    ensures InRange(y, n) && Orbit(group, n, y) == Orbit(group, n, x)
  {
    OrbitInside(group, n, x, y);
    OrbitSymmetric(group, n, x, y);
    OrbitInside(group, n, y, x);
  }

  // ----- The order: sorted lists, compared lexicographically -----

  predicate LexLess(a: seq<nat>, b: seq<nat>) {
    if b == [] then false
    else if a == [] then true
    else if a[0] != b[0] then a[0] < b[0]
    else LexLess(a[1..], b[1..])
  }

  predicate IsMin(m: nat, x: IndexSet) {
    m in x && forall y :: y in x ==> m <= y
  }

  lemma MinOfOneMore(a: nat, m: nat, x: IndexSet)
    requires a in x && IsMin(m, x - {a})
    ensures IsMin(if a < m then a else m, x)
  {
    forall y | y in x
      ensures (if a < m then a else m) <= y
    {
      assert y == a || y in x - {a};
    }
  }

  lemma {:induction false} MinExists(x: IndexSet)
    requires x != {}
    ensures exists m :: IsMin(m, x)
  {
    var a :| a in x;
    var rest := x - {a};
    if rest == {} {
      assert x == {a};
      assert IsMin(a, x);
    } else {
      MinExists(rest);
      var m :| IsMin(m, rest);
      MinOfOneMore(a, m, x);
    }
  }

  function Min(x: IndexSet): (m: nat)
    requires x != {}
    ensures IsMin(m, x)
  {
    MinExists(x);
    var m :| IsMin(m, x);
    m
  }

  function SortedList(x: IndexSet): (s: seq<nat>)
    ensures forall i :: i in s <==> i in x
  {
    if x == {} then [] else [Min(x)] + SortedList(x - {Min(x)})
  }

  predicate Less(x: IndexSet, y: IndexSet) {
    LexLess(SortedList(x), SortedList(y))
  }

  lemma {:induction false} LexTransitive(a: seq<nat>, b: seq<nat>, c: seq<nat>)
    requires LexLess(a, b) && LexLess(b, c)
    ensures LexLess(a, c)
  {
    if a != [] && a[0] == b[0] == c[0] {
      LexTransitive(a[1..], b[1..], c[1..]);
    }
  }

  lemma {:induction false} LexTotal(a: seq<nat>, b: seq<nat>)
    ensures LexLess(a, b) || LexLess(b, a) || a == b
  {
    if a != [] && b != [] && a[0] == b[0] {
      LexTotal(a[1..], b[1..]);
      assert a == [a[0]] + a[1..] && b == [b[0]] + b[1..];
    }
  }

  lemma {:induction false} LexIrreflexive(a: seq<nat>)
    ensures !LexLess(a, a)
  {
    if a != [] {
      LexIrreflexive(a[1..]);
    }
  }

  lemma LessTransitive(x: IndexSet, y: IndexSet, z: IndexSet)
    requires Less(x, y) && Less(y, z)
    ensures Less(x, z)
  {
    LexTransitive(SortedList(x), SortedList(y), SortedList(z));
  }

  lemma LessTotal(x: IndexSet, y: IndexSet)
    ensures Less(x, y) || Less(y, x) || x == y
  {
    LexTotal(SortedList(x), SortedList(y));
    if SortedList(x) == SortedList(y) {
      assert forall i :: i in x <==> i in SortedList(x);
      assert x == y;
    }
  }

  lemma LessIrreflexive(x: IndexSet)
    ensures !Less(x, x)
  {
    LexIrreflexive(SortedList(x));
  }

  // ----- The order on sets, without lists -----

  /** The smallest number in one of the two sets and not in the other. */
  ghost predicate FirstDifference(d: nat, x: IndexSet, y: IndexSet) {
    (d in x <==> d !in y) && forall i :: 0 <= i < d ==> (i in x <==> i in y)
  }

  /** The two sets first differ at `d`, where `x` has the smaller number, or no more numbers at all. */
  ghost predicate ComesBeforeAt(d: nat, x: IndexSet, y: IndexSet) {
    && FirstDifference(d, x, y)
    && if d in x then exists e :: e in y && d < e else forall e :: e in x ==> e < d
  }

  /** `x` comes before `y`, compared as lists of their numbers in increasing order. */
  ghost predicate ComesBefore(x: IndexSet, y: IndexSet) {
    exists d :: ComesBeforeAt(d, x, y)
  }

  lemma NothingBeforeEmpty(x: IndexSet)
    ensures !ComesBefore(x, {})
  {
  }

  lemma EmptyBeforeRest(y: IndexSet)
    requires y != {}
    ensures ComesBefore({}, y)
  {
    assert ComesBeforeAt(Min(y), {}, y);
  }

  lemma SmallerMinComesBefore(x: IndexSet, y: IndexSet)
    requires x != {} && y != {} && Min(x) < Min(y)
    ensures ComesBefore(x, y) && !ComesBefore(y, x)
  {
    var d := Min(x);
    assert Min(y) in y && ComesBeforeAt(d, x, y);
    forall e | FirstDifference(e, y, x)
      ensures e == d
    {
      assert e <= d && d <= e;
    }
  }

  lemma SameMinComesBefore(x: IndexSet, y: IndexSet, m: nat)
    requires x != {} && y != {} && Min(x) == m == Min(y)
    ensures ComesBefore(x, y) <==> ComesBefore(x - {m}, y - {m})
  {
    forall d: nat
      ensures ComesBeforeAt(d, x, y) <==> ComesBeforeAt(d, x - {m}, y - {m})
    {
      DifferenceWithout(d, x, y, m);
      if FirstDifference(d, x, y) {
        assert forall e :: e > m ==> (e in x <==> e in x - {m}) && (e in y <==> e in y - {m});
      }
    }
  }

  lemma DifferenceWithout(d: nat, x: IndexSet, y: IndexSet, m: nat)
    requires IsMin(m, x) && IsMin(m, y)
    ensures FirstDifference(d, x, y) <==> FirstDifference(d, x - {m}, y - {m})
    ensures FirstDifference(d, x, y) ==> d > m
  {
    assert forall i :: i != m ==> (i in x <==> i in x - {m}) && (i in y <==> i in y - {m});
  }

  /** Comparing sorted lists is comparing sets at their first difference. */
  lemma {:induction false} LessExactly(x: IndexSet, y: IndexSet)
    ensures Less(x, y) <==> ComesBefore(x, y)
    decreases |x|
  {
    if y == {} {
      NothingBeforeEmpty(x);
    } else if x == {} {
      EmptyBeforeRest(y);
    } else {
      ListCons(x);
      ListCons(y);
      if Min(x) < Min(y) {
        SmallerMinComesBefore(x, y);
      } else if Min(y) < Min(x) {
        SmallerMinComesBefore(y, x);
      } else {
        SameMinComesBefore(x, y, Min(x));
        LessExactly(x - {Min(x)}, y - {Min(x)});
      }
    }
  }

  lemma ListCons(x: IndexSet)
    requires x != {}
    ensures SortedList(x)[0] == Min(x) && SortedList(x)[1..] == SortedList(x - {Min(x)})
  {
  }

  predicate Increasing(s: seq<nat>) {
    forall i, j :: 0 <= i < j < |s| ==> s[i] < s[j]
  }

  lemma ConsIncreases(m: nat, s: seq<nat>)
    requires Increasing(s) && forall i :: i in s ==> m < i
    ensures Increasing([m] + s)
  {
    forall j | 0 <= j < |s|
      ensures m < s[j]
    {
      assert s[j] in s;
    }
  }

  /** The sorted list of a set: each of its numbers once, in increasing order. */
  lemma {:induction false} SortedListAscends(x: IndexSet)
    ensures Increasing(SortedList(x)) && |SortedList(x)| == |x|
    decreases |x|
  {
    if x == {} {
      assert SortedList(x) == [];
    } else {
      var m := Min(x);
      SortedListAscends(x - {m});
      ConsIncreases(m, SortedList(x - {m}));
    }
  }

  /** Of two sets of one size, the one with the smallest number that they do not share. */
  ghost predicate HasFirst(x: IndexSet, y: IndexSet) {
    exists d :: d in x && d !in y && forall i :: 0 <= i < d ==> (i in x <==> i in y)
  }

  lemma SameSizeComesBefore(x: IndexSet, y: IndexSet)
    requires |x| == |y|
    ensures ComesBefore(x, y) <==> HasFirst(x, y)
  {
    if ComesBefore(x, y) {
      var d :| ComesBeforeAt(d, x, y);
      if d !in x {
        assert x <= y - {d};
        SubsetSmaller(x, y - {d});
        assert false;
      }
    }
    if HasFirst(x, y) {
      var d :| d in x && d !in y && forall i :: 0 <= i < d ==> (i in x <==> i in y);
      if forall e :: e in y ==> e <= d {
        assert y <= x - {d};
        SubsetSmaller(y, x - {d});
        assert false;
      }
      assert ComesBeforeAt(d, x, y);
    }
  }

  lemma {:induction false} SubsetSmaller(x: IndexSet, y: IndexSet)
    requires x <= y
    ensures |x| <= |y|
    decreases |x|
  {
    if x != {} {
      var i :| i in x;
      SubsetSmaller(x - {i}, y - {i});
    }
  }

  ghost predicate IsLeast(m: IndexSet, sets: set<IndexSet>) {
    m in sets && forall y :: y in sets ==> y == m || Less(m, y)
  }

  /** The member of `sets` that has the smallest number not shared with each of the others. */
  ghost predicate IsFirst(m: IndexSet, sets: set<IndexSet>) {
    m in sets && forall y :: y in sets && y != m ==> HasFirst(m, y)
  }

  /** The sets of an orbit have one size, so the one whose sorted list is least is told by the
      first number at which it differs from each of the others: it has that number. */
  lemma LeastIsFirst(group: seq<Perm>, n: nat, x: IndexSet, m: IndexSet)
    requires IsGroup(group, n) && InRange(x, n)
    ensures IsLeast(m, Orbit(group, n, x)) <==> IsFirst(m, Orbit(group, n, x))
  {
    forall y, z | y in Orbit(group, n, x) && z in Orbit(group, n, x)
      ensures Less(y, z) <==> HasFirst(y, z)
    {
      OrbitSizes(group, n, x, y);
      OrbitSizes(group, n, x, z);
      LessExactly(y, z);
      SameSizeComesBefore(y, z);
    }
  }

  lemma OrbitSizes(group: seq<Perm>, n: nat, x: IndexSet, y: IndexSet)
    requires IsGroup(group, n) && InRange(x, n) && y in Orbit(group, n, x)
    ensures |y| == |x|
  {
    var g :| g in group && y == Image(g, x);
    ImageSize(g, n, x);
  }

  lemma LeastIsUnique(a: IndexSet, b: IndexSet, sets: set<IndexSet>)
    requires IsLeast(a, sets) && IsLeast(b, sets)
    ensures a == b
  {
    if a != b {
      LessTransitive(a, b, a);
      LessIrreflexive(a);
    }
  }

  // ----- Sorting the representatives -----

  predicate Ascending(s: seq<IndexSet>) {
    forall i, j :: 0 <= i < j < |s| ==> Less(s[i], s[j])
  }

  function Insert(x: IndexSet, s: seq<IndexSet>): (r: seq<IndexSet>)
    ensures forall y :: y in r <==> y == x || y in s
  {
    if s == [] || Less(x, s[0]) then [x] + s else [s[0]] + Insert(x, s[1..])
  }

  function SortSets(s: seq<IndexSet>): (r: seq<IndexSet>)
    ensures forall y :: y in r <==> y in s
  {
    if s == [] then [] else Insert(s[0], SortSets(s[1..]))
  }

  lemma {:induction false} InsertAscends(x: IndexSet, s: seq<IndexSet>)
    requires Ascending(s) && x !in s
    ensures Ascending(Insert(x, s))
  {
    if s != [] {
      if Less(x, s[0]) {
        forall j | 0 < j < |s|
          ensures Less(x, s[j])
        {
          LessTransitive(x, s[0], s[j]);
        }
      } else {
        LessTotal(x, s[0]);
        InsertAscends(x, s[1..]);
        var rest := Insert(x, s[1..]);
        forall j | 0 <= j < |rest|
          ensures Less(s[0], rest[j])
        {
          assert rest[j] in rest;
        }
      }
    }
  }

  lemma {:induction false} SortAscends(s: seq<IndexSet>)
    requires Distinct(s)
    ensures Ascending(SortSets(s))
  {
    if s != [] {
      SortAscends(s[1..]);
      assert s[0] !in s[1..];
      InsertAscends(s[0], SortSets(s[1..]));
    }
  }

  lemma HasMember(b: seq<IndexSet>)
    requires b != []
    ensures exists x :: x in b
  {
    assert b[0] in b;
  }

  /** An ascending list is determined by its members. */
  lemma {:induction false} AscendingIsUnique(a: seq<IndexSet>, b: seq<IndexSet>)
    requires Ascending(a) && Ascending(b) && forall x :: x in a <==> x in b
    ensures a == b
  {
    if a == [] {
      if b != [] {
        HasMember(b);
        assert false;
      }
    } else {
      assert a[0] in b;
      var k :| 0 <= k < |b| && b[k] == a[0];
      assert b[0] in a;
      var l :| 0 <= l < |a| && a[l] == b[0];
      if k > 0 {
        assert Less(b[0], b[k]);
        if l > 0 {
          LessTransitive(a[0], a[l], a[0]);
        }
        LessIrreflexive(a[0]);
      }
      forall x
        ensures x in a[1..] <==> x in b[1..]
      {
        HeadAppearsOnce(a);
        HeadAppearsOnce(b);
        assert x in a <==> x == a[0] || x in a[1..];
        assert x in b <==> x == b[0] || x in b[1..];
      }
      AscendingIsUnique(a[1..], b[1..]);
      assert a == [a[0]] + a[1..] && b == [b[0]] + b[1..];
    }
  }

  lemma HeadAppearsOnce(a: seq<IndexSet>)
    requires Ascending(a) && a != []
    ensures a[0] !in a[1..]
  {
    if a[0] in a[1..] {
      var k :| 1 <= k < |a| && a[k] == a[0];
      LessIrreflexive(a[0]);
    }
  }

  // ----- The orbit loop -----

  ghost predicate Covered(group: seq<Perm>, n: nat, x: IndexSet, reps: seq<IndexSet>)
    requires IsGroup(group, n) && InRange(x, n)
  {
    exists r :: r in reps && IsLeast(r, Orbit(group, n, x))
  }

  ghost predicate Represents(group: seq<Perm>, n: nat, r: IndexSet, inputs: set<IndexSet>)
    requires IsGroup(group, n) && forall x :: x in inputs ==> InRange(x, n)
  {
    exists x :: x in inputs && IsLeast(r, Orbit(group, n, x))
  }

  /** The images under the first `k` elements of the group. */
  ghost function Images(group: seq<Perm>, n: nat, k: nat, x: IndexSet): set<IndexSet>
    requires IsGroup(group, n) && k <= |group| && InRange(x, n)
  {
    if k == 0 then {}
    else
      assert group[k - 1] in group;
      Images(group, n, k - 1, x) + {Image(group[k - 1], x)}
  }

  lemma {:induction false} ImagesSoFar(group: seq<Perm>, n: nat, k: nat, x: IndexSet)
    requires IsGroup(group, n) && k <= |group| && InRange(x, n)
    ensures Images(group, n, k, x) <= Orbit(group, n, x)
    ensures forall i :: 0 <= i < k ==> group[i] in group && Image(group[i], x) in Images(group, n, k, x)
  {
    if k > 0 {
      assert group[k - 1] in group;
      ImagesSoFar(group, n, k - 1, x);
    }
  }

  lemma AllImages(group: seq<Perm>, n: nat, x: IndexSet)
    requires IsGroup(group, n) && InRange(x, n)
    ensures Images(group, n, |group|, x) == Orbit(group, n, x)
  {
    ImagesSoFar(group, n, |group|, x);
    forall y | y in Orbit(group, n, x)
      ensures y in Images(group, n, |group|, x)
    {
      var g :| g in group && y == Image(g, x);
      var i :| 0 <= i < |group| && group[i] == g;
    }
  }

  lemma LeastOfOneMore(m: IndexSet, sets: set<IndexSet>, y: IndexSet)
    requires IsLeast(m, sets)
    ensures IsLeast(if Less(y, m) then y else m, sets + {y})
  {
    LessTotal(y, m);
    forall z | z in sets && Less(y, m) && z != m
      ensures Less(y, z)
    {
      LessTransitive(y, m, z);
    }
  }

  lemma SweepStep(group: seq<Perm>, n: nat, k: nat, idx: IndexSet, others: set<IndexSet>, m: IndexSet)
    requires IsGroup(group, n) && k < |group| && InRange(idx, n)
    requires IsLeast(m, {idx} + Images(group, n, k, idx))
    ensures InRange(idx, |group[k]|)
    ensures var image := Image(group[k], idx);
            && IsLeast(if Less(image, m) then image else m, {idx} + Images(group, n, k + 1, idx))
            && others - Images(group, n, k, idx) - {image} == others - Images(group, n, k + 1, idx)
  {
    assert group[k] in group;
    var image := Image(group[k], idx);
    var images := Images(group, n, k, idx);
    LeastOfOneMore(m, {idx} + images, image);
    OneImageMore(group, n, k, idx);
    StrikeOneMore(idx, images, image, others);
  }

  lemma OneImageMore(group: seq<Perm>, n: nat, k: nat, idx: IndexSet)
    requires IsGroup(group, n) && k < |group| && InRange(idx, n)
    ensures InRange(idx, |group[k]|)
    ensures Images(group, n, k + 1, idx) == Images(group, n, k, idx) + {Image(group[k], idx)}
  {
    assert group[k] in group;
  }

  lemma StrikeOneMore(idx: IndexSet, images: set<IndexSet>, image: IndexSet, others: set<IndexSet>)
    ensures {idx} + images + {image} == {idx} + (images + {image})
    ensures others - images - {image} == others - (images + {image})
  {
  }

  /** The images of one set under the whole group: its least image, and what is left of the
      other sets once every image has been struck out. */
  method Sweep(group: seq<Perm>, n: nat, idx: IndexSet, others: set<IndexSet>)
    returns (minOrb: IndexSet, rest: set<IndexSet>)
    requires IsGroup(group, n) && InRange(idx, n)
    ensures IsLeast(minOrb, Orbit(group, n, idx)) && IsFirst(minOrb, Orbit(group, n, idx))
    ensures rest == others - Orbit(group, n, idx)
  {
    minOrb, rest := idx, others;
    for k := 0 to |group|
      invariant IsLeast(minOrb, {idx} + Images(group, n, k, idx))
      invariant rest == others - Images(group, n, k, idx)
    {
      SweepStep(group, n, k, idx, others, minOrb);
      var gIdx := Image(group[k], idx);
      if Less(gIdx, minOrb) {
        minOrb := gIdx;
      }
      rest := rest - {gIdx};
    }
    AllImages(group, n, idx);
    InOwnOrbit(group, n, idx);
    assert {idx} + Orbit(group, n, idx) == Orbit(group, n, idx);
    LeastIsFirst(group, n, idx, minOrb);
  }

  /** The state between two rounds: each input is waiting or has its representative; no
      representative belongs to a waiting set. */
  ghost predicate Halfway(group: seq<Perm>, n: nat, inputs: set<IndexSet>, waiting: set<IndexSet>, reps: seq<IndexSet>)
    requires IsGroup(group, n) && forall x :: x in inputs ==> InRange(x, n)
  {
    && waiting <= inputs
    && (forall x :: x in inputs ==> x in waiting || Covered(group, n, x, reps))
    && (forall r :: r in reps ==> Represents(group, n, r, inputs))
    && (forall r, x :: r in reps && x in waiting ==> r !in Orbit(group, n, x))
    && Distinct(reps)
  }

  lemma OtherOrbits(group: seq<Perm>, n: nat, idx: IndexSet, x: IndexSet, m: IndexSet)
    requires IsGroup(group, n) && InRange(idx, n) && InRange(x, n) && m in Orbit(group, n, idx)
    ensures m in Orbit(group, n, x) <==> x in Orbit(group, n, idx)
    ensures x in Orbit(group, n, idx) ==> Orbit(group, n, x) == Orbit(group, n, idx)
  {
    OrbitsCoincide(group, n, idx, m);
    InOwnOrbit(group, n, x);
    if m in Orbit(group, n, x) {
      OrbitsCoincide(group, n, x, m);
    }
    if x in Orbit(group, n, idx) {
      OrbitsCoincide(group, n, idx, x);
    }
  }

  lemma CoveredByMore(group: seq<Perm>, n: nat, x: IndexSet, reps: seq<IndexSet>, m: IndexSet)
    requires IsGroup(group, n) && InRange(x, n)
    requires Covered(group, n, x, reps) || IsLeast(m, Orbit(group, n, x))
    ensures Covered(group, n, x, reps + [m])
  {
  }

  lemma OneRound(group: seq<Perm>, n: nat, inputs: set<IndexSet>, waiting: set<IndexSet>, reps: seq<IndexSet>,
                 idx: IndexSet, m: IndexSet)
    requires IsGroup(group, n) && forall x :: x in inputs ==> InRange(x, n)
    requires Halfway(group, n, inputs, waiting, reps)
    requires idx in waiting && IsLeast(m, Orbit(group, n, idx))
    ensures Halfway(group, n, inputs, waiting - Orbit(group, n, idx), reps + [m])
  {
    var rest := waiting - Orbit(group, n, idx);
    assert m !in reps;
    forall x | x in inputs && x !in rest
      ensures Covered(group, n, x, reps + [m])
    {
      if x in waiting {
        OtherOrbits(group, n, idx, x, m);
      }
      CoveredByMore(group, n, x, reps, m);
    }
    forall x | x in rest
      ensures m !in Orbit(group, n, x)
    {
      OtherOrbits(group, n, idx, x, m);
    }
    assert Represents(group, n, m, inputs);
  }

  lemma HalfwayIsDone(group: seq<Perm>, n: nat, inputs: set<IndexSet>, reps: seq<IndexSet>)
    requires IsGroup(group, n) && forall x :: x in inputs ==> InRange(x, n)
    requires Halfway(group, n, inputs, {}, reps)
    ensures forall r :: r in reps <==> Represents(group, n, r, inputs)
  {
    forall r | Represents(group, n, r, inputs)
      ensures r in reps
    {
      var x :| x in inputs && IsLeast(r, Orbit(group, n, x));
      assert Covered(group, n, x, reps);
      var q :| q in reps && IsLeast(q, Orbit(group, n, x));
      LeastIsUnique(r, q, Orbit(group, n, x));
    }
  }

  lemma StrikeOwn(sets: set<IndexSet>, idx: IndexSet, orbit: set<IndexSet>)
    requires idx in sets && idx in orbit
    ensures sets - {idx} - orbit == sets - orbit && sets - orbit < sets
  {
  }

  /** `r` is the first set in the orbit of some input. */
  ghost predicate IsFirstOfSome(group: seq<Perm>, n: nat, r: IndexSet, inputs: set<IndexSet>)
    requires IsGroup(group, n) && forall x :: x in inputs ==> InRange(x, n)
  {
    exists x :: x in inputs && IsFirst(r, Orbit(group, n, x))
  }

  lemma RepresentsFirst(group: seq<Perm>, n: nat, r: IndexSet, inputs: set<IndexSet>)
    requires IsGroup(group, n) && forall x :: x in inputs ==> InRange(x, n)
    ensures Represents(group, n, r, inputs) <==> IsFirstOfSome(group, n, r, inputs)
  {
    forall x | x in inputs
      ensures IsLeast(r, Orbit(group, n, x)) <==> IsFirst(r, Orbit(group, n, x))
    {
      LeastIsFirst(group, n, x, r);
    }
  }

  lemma AscendingExactly(s: seq<IndexSet>)
    ensures Ascending(s) <==> forall i, j :: 0 <= i < j < |s| ==> ComesBefore(s[i], s[j])
  {
    forall i, j | 0 <= i < j < |s|
      ensures Less(s[i], s[j]) <==> ComesBefore(s[i], s[j])
    {
      LessExactly(s[i], s[j]);
    }
  }

  lemma RepresentativesFirst(group: seq<Perm>, n: nat, inputs: set<IndexSet>, reps: seq<IndexSet>)
    requires IsGroup(group, n) && forall x :: x in inputs ==> InRange(x, n)
    requires Ascending(reps) && forall r :: r in reps <==> Represents(group, n, r, inputs)
    ensures forall r :: r in reps <==> IsFirstOfSome(group, n, r, inputs)
    ensures forall i, j :: 0 <= i < j < |reps| ==> ComesBefore(reps[i], reps[j])
  {
    AscendingExactly(reps);
    forall r
      ensures r in reps <==> IsFirstOfSome(group, n, r, inputs)
    {
      RepresentsFirst(group, n, r, inputs);
    }
  }

  method PointsetsModAutomorphism(group: seq<Perm>, n: nat, inputs: set<IndexSet>) returns (reps: seq<IndexSet>)
    requires IsGroup(group, n) && forall x :: x in inputs ==> InRange(x, n)
    ensures forall r :: r in reps <==> Represents(group, n, r, inputs)
    ensures Ascending(reps)
    ensures forall r :: r in reps <==> IsFirstOfSome(group, n, r, inputs)
    ensures forall i, j :: 0 <= i < j < |reps| ==> ComesBefore(reps[i], reps[j])
  {
    var indexsets := inputs;
    var orbits: seq<IndexSet> := [];
    while indexsets != {}
      invariant Halfway(group, n, inputs, indexsets, orbits)
      decreases indexsets
    {
      var idx :| idx in indexsets;
      var minOrb, rest := Sweep(group, n, idx, indexsets - {idx});
      InOwnOrbit(group, n, idx);
      OneRound(group, n, inputs, indexsets, orbits, idx, minOrb);
      StrikeOwn(indexsets, idx, Orbit(group, n, idx));
      indexsets := rest;
      orbits := orbits + [minOrb];
    }
    HalfwayIsDone(group, n, inputs, orbits);
    SortAscends(orbits);
    reps := SortSets(orbits);
    RepresentativesFirst(group, n, inputs, reps);
  }

  /** What the loop returns does not depend on which set each `pop` happened to take. */
  lemma AnswerIsDetermined(group: seq<Perm>, n: nat, inputs: set<IndexSet>, a: seq<IndexSet>, b: seq<IndexSet>)
    requires IsGroup(group, n) && forall x :: x in inputs ==> InRange(x, n)
    requires Ascending(a) && forall r :: r in a <==> Represents(group, n, r, inputs)
    requires Ascending(b) && forall r :: r in b <==> Represents(group, n, r, inputs)
    ensures a == b
  {
    AscendingIsUnique(a, b);
  }

  /** Two input sets share a representative exactly when they lie in one orbit. */
  lemma OneRepresentativePerOrbit(group: seq<Perm>, n: nat, x: IndexSet, y: IndexSet, r: IndexSet, s: IndexSet)
    requires IsGroup(group, n) && InRange(x, n) && InRange(y, n)
    requires IsLeast(r, Orbit(group, n, x)) && IsLeast(s, Orbit(group, n, y))
    ensures r == s <==> y in Orbit(group, n, x)
  {
    if y in Orbit(group, n, x) {
      OrbitsCoincide(group, n, x, y);
      LeastIsUnique(r, s, Orbit(group, n, x));
    } else if r == s {
      OrbitsCoincide(group, n, x, r);
      OrbitsCoincide(group, n, y, r);
      InOwnOrbit(group, n, y);
    }
  }
}
