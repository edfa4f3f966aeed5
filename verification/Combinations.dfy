/**
 The pruned enumeration of point combinations in `fibration_generator`: index
 lists are grown left to right and abandoned as soon as the inequalities their
 points saturate have nothing in common.
 */
module Combinations {

  type Ieq = nat
  type Combo = seq<nat>

  datatype Saturated = Any | These(ieqs: set<Ieq>)

  /** The inequalities still saturated once the point at index `i` joins. */
  function Narrow(points: seq<set<Ieq>>, saturated: Saturated, i: nat): set<Ieq>
    requires i < |points|
  {
    match saturated
    case Any => points[i]
    case These(ieqs) => ieqs * points[i]
  }

  function Prepend(i: nat, cs: seq<Combo>): (r: seq<Combo>)
    ensures |r| == |cs| && forall k :: 0 <= k < |cs| ==> r[k] == [i] + cs[k]
  {
    seq(|cs|, k requires 0 <= k < |cs| => [i] + cs[k])
  }

  /** Everything the generator yields, in order: `n` more points, from index `i` on. */
  function Iterate(points: seq<set<Ieq>>, n: int, i: nat, saturated: Saturated): seq<Combo>
    decreases |points| - i, 1
  {
    if i >= |points| then []
    else Starting(points, n, i, saturated) + Iterate(points, n, i + 1, saturated)
  }

  /** What is yielded with index `i` first. */
  function Starting(points: seq<set<Ieq>>, n: int, i: nat, saturated: Saturated): seq<Combo>
    requires i < |points|
    decreases |points| - i, 0
  {
    var narrowed := Narrow(points, saturated, i);
    if narrowed == {} then []
    else if n == 1 then [[i]]
    else Prepend(i, Iterate(points, n - 1, i + 1, These(narrowed)))
  }

  // ----- What it should yield -----

  predicate Within(c: Combo, m: nat) {
    forall k :: 0 <= k < |c| ==> c[k] < m
  }

  predicate AllWithin(cs: seq<Combo>, m: nat) {
    forall k :: 0 <= k < |cs| ==> Within(cs[k], m)
  }

  predicate Increasing(c: Combo) {
    forall a, b :: 0 <= a < b < |c| ==> c[a] < c[b]
  }

  /** Do all the chosen points lie on inequality `q`? */
  predicate AllOn(points: seq<set<Ieq>>, c: Combo, q: Ieq)
    requires Within(c, |points|)
  {
    forall k :: 0 <= k < |c| ==> q in points[c[k]]
  }

  /** Is there one inequality, of those still saturated, on which all the chosen points lie? */
  ghost predicate OnCommonIeq(points: seq<set<Ieq>>, c: Combo, saturated: Saturated)
    requires Within(c, |points|)
  {
    exists q :: (saturated.These? ==> q in saturated.ieqs) && AllOn(points, c, q)
  }

  ghost predicate Wanted(points: seq<set<Ieq>>, n: int, i: nat, saturated: Saturated, c: Combo) {
    && |c| == n && Increasing(c)
    && Within(c, |points|) && (forall k :: 0 <= k < |c| ==> i <= c[k])
    && OnCommonIeq(points, c, saturated)
  }

  predicate LexBefore(a: Combo, b: Combo) {
    if a == [] || b == [] then a == [] && b != []
    else a[0] < b[0] || (a[0] == b[0] && LexBefore(a[1..], b[1..]))
  }

  predicate LexAscending(cs: seq<Combo>) {
    forall a, b :: 0 <= a < b < |cs| ==> LexBefore(cs[a], cs[b])
  }

  /** The first point's inequalities can be taken off at once. */
  lemma FirstNarrows(points: seq<set<Ieq>>, c: Combo, saturated: Saturated)
    requires Within(c, |points|) && c != []
    ensures Within(c[1..], |points|)
    ensures OnCommonIeq(points, c, saturated) <==> OnCommonIeq(points, c[1..], These(Narrow(points, saturated, c[0])))
  {
    forall q
      ensures AllOn(points, c, q) <==> q in points[c[0]] && AllOn(points, c[1..], q)
    {
      assert c == [c[0]] + c[1..];
    }
    if OnCommonIeq(points, c, saturated) {
      var q :| (saturated.These? ==> q in saturated.ieqs) && AllOn(points, c, q);
      assert q in Narrow(points, saturated, c[0]) && AllOn(points, c[1..], q);
    }
    if OnCommonIeq(points, c[1..], These(Narrow(points, saturated, c[0]))) {
      var q :| q in Narrow(points, saturated, c[0]) && AllOn(points, c[1..], q);
      assert AllOn(points, c, q);
    }
  }

  lemma WantedSplits(points: seq<set<Ieq>>, n: int, i: nat, saturated: Saturated, c: Combo)
    requires n >= 1 && i < |points|
    ensures Wanted(points, n, i, saturated, c) <==>
            || Wanted(points, n, i + 1, saturated, c)
            || (c != [] && c[0] == i && Wanted(points, n - 1, i + 1, These(Narrow(points, saturated, i)), c[1..]))
  {
    if c != [] && c[0] == i {
      WantedFirst(points, n, i, saturated, c);
    }
  }

  lemma WantedFirst(points: seq<set<Ieq>>, n: int, i: nat, saturated: Saturated, c: Combo)
    requires n >= 1 && i < |points| && c != [] && c[0] == i
    ensures Wanted(points, n, i, saturated, c) <==>
            Wanted(points, n - 1, i + 1, These(Narrow(points, saturated, i)), c[1..])
  {
    assert c == [i] + c[1..];
    if Within(c, |points|) {
      FirstNarrows(points, c, saturated);
    }
  }

  lemma StartingExact(points: seq<set<Ieq>>, n: int, i: nat, saturated: Saturated, c: Combo)
    requires n >= 1 && i < |points|
    requires n > 1 && c != [] ==>
               (c[1..] in Iterate(points, n - 1, i + 1, These(Narrow(points, saturated, i))) <==>
                Wanted(points, n - 1, i + 1, These(Narrow(points, saturated, i)), c[1..]))
    ensures c in Starting(points, n, i, saturated) <==>
            c != [] && c[0] == i && Wanted(points, n - 1, i + 1, These(Narrow(points, saturated, i)), c[1..])
  {
    var narrowed := Narrow(points, saturated, i);
    if c != [] && c[0] == i && narrowed == {} {
    } else if c != [] && c[0] == i {
      assert c == [i] + c[1..];
      assert c[1..] == [] ==> c == [i];
      var q :| q in narrowed;
      assert c[1..] == [] ==> AllOn(points, c[1..], q);
      if n > 1 {
        InPrepend(i, Iterate(points, n - 1, i + 1, These(narrowed)), c);
      }
    } else if n > 1 && c in Starting(points, n, i, saturated) {
      InPrepend(i, Iterate(points, n - 1, i + 1, These(narrowed)), c);
    }
  }

  lemma InPrepend(i: nat, cs: seq<Combo>, c: Combo)
    ensures c in Prepend(i, cs) <==> c != [] && c[0] == i && c[1..] in cs
  {
    if c in Prepend(i, cs) {
      var k :| 0 <= k < |cs| && Prepend(i, cs)[k] == c;
      assert ([i] + cs[k])[1..] == cs[k];
    }
    if c != [] && c[0] == i && c[1..] in cs {
      var k :| 0 <= k < |cs| && cs[k] == c[1..];
      assert c == [i] + c[1..] == Prepend(i, cs)[k];
    }
  }

  lemma StartingAscends(points: seq<set<Ieq>>, n: int, i: nat, saturated: Saturated)
    requires n >= 1 && i < |points|
    requires n > 1 ==> LexAscending(Iterate(points, n - 1, i + 1, These(Narrow(points, saturated, i))))
    ensures LexAscending(Starting(points, n, i, saturated))
    ensures forall c :: c in Starting(points, n, i, saturated) ==> c != [] && c[0] == i
  {
  }

  lemma AscendingConcat(xs: seq<Combo>, ys: seq<Combo>, i: nat)
    requires LexAscending(xs) && LexAscending(ys)
    requires forall c :: c in xs ==> c != [] && c[0] == i
    requires forall c :: c in ys ==> c != [] && c[0] > i
    ensures LexAscending(xs + ys)
  {
  }

  /** The generator yields exactly the strictly increasing index lists of length `n` whose
      points lie on a common inequality, in lexicographic order, so each of them once. */
  lemma {:induction false} IterateExact(points: seq<set<Ieq>>, n: int, i: nat, saturated: Saturated)
    requires n >= 1
    ensures forall c :: c in Iterate(points, n, i, saturated) <==> Wanted(points, n, i, saturated, c)
    ensures LexAscending(Iterate(points, n, i, saturated))
    decreases |points| - i
  {
    if i < |points| {
      var start, later := Starting(points, n, i, saturated), Iterate(points, n, i + 1, saturated);
      assert Iterate(points, n, i, saturated) == start + later;
      IterateExact(points, n, i + 1, saturated);
      if n > 1 {
        IterateExact(points, n - 1, i + 1, These(Narrow(points, saturated, i)));
      }
      forall c
        ensures c in start + later <==> Wanted(points, n, i, saturated, c)
      {
        StartingExact(points, n, i, saturated, c);
        WantedSplits(points, n, i, saturated, c);
      }
      StartingAscends(points, n, i, saturated);
      AscendingConcat(start, later, i);
    } else {
      forall c
        ensures !Wanted(points, n, i, saturated, c)
      {
        assert |c| == n ==> i <= c[0] ==> !Within(c, |points|);
      }
    }
  }

  /** What `fibration_generator` starts from: every increasing list of `n` points that lie on
      one inequality, whichever it is. */
  lemma YieldedFromTheStart(points: seq<set<Ieq>>, n: int, c: Combo)
    requires n >= 1
    ensures c in Iterate(points, n, 0, Any) <==>
            && |c| == n && (forall a, b :: 0 <= a < b < |c| ==> c[a] < c[b])
            && (forall k :: 0 <= k < |c| ==> c[k] < |points|)
            && exists q :: AllOn(points, c, q)
  {
    IterateExact(points, n, 0, Any);
  }

  lemma {:induction false} LexBeforeAt(a: Combo, b: Combo)
    requires LexBefore(a, b) && |a| == |b|
    ensures exists k :: 0 <= k < |a| && a[..k] == b[..k] && a[k] < b[k]
    decreases |a|
  {
    if a[0] < b[0] {
      assert a[..0] == b[..0];
    } else {
      LexBeforeAt(a[1..], b[1..]);
      var k :| 0 <= k < |a[1..]| && a[1..][..k] == b[1..][..k] && a[1..][k] < b[1..][k];
      assert a[..k + 1] == [a[0]] + a[1..][..k] && b[..k + 1] == [b[0]] + b[1..][..k];
      assert a[k + 1] < b[k + 1];
    }
  }

  /** Of two combinations, the one yielded first has the smaller index where they first differ. */
  lemma YieldedInOrder(points: seq<set<Ieq>>, n: int, i: nat, saturated: Saturated, x: nat, y: nat)
    requires n >= 1 && x < y < |Iterate(points, n, i, saturated)|
    ensures var cs := Iterate(points, n, i, saturated);
            && |cs[x]| == |cs[y]| == n
            && exists k :: 0 <= k < n && cs[x][..k] == cs[y][..k] && cs[x][k] < cs[y][k]
  {
    var cs := Iterate(points, n, i, saturated);
    IterateExact(points, n, i, saturated);
    assert cs[x] in cs && cs[y] in cs;
    LexBeforeAt(cs[x], cs[y]);
  }

  /** With no points asked for, nothing is ever yielded. */
  lemma {:induction false} NothingBelowOne(points: seq<set<Ieq>>, n: int, i: nat, saturated: Saturated)
    requires n <= 0
    ensures Iterate(points, n, i, saturated) == []
    decreases |points| - i
  {
    if i < |points| {
      NothingBelowOne(points, n, i + 1, saturated);
      NothingBelowOne(points, n - 1, i + 1, These(Narrow(points, saturated, i)));
    }
  }

  // ----- Generate everything, then filter -----

  /** All increasing lists of `n` indices from `i` up to `m`, in lexicographic order. */
  function AllCombos(m: nat, n: nat, i: nat): (cs: seq<Combo>)
    ensures AllWithin(cs, m)
    decreases n, m - i
  {
    if n == 0 then [[]]
    else if i >= m then []
    else Prepend(i, AllCombos(m, n - 1, i + 1)) + AllCombos(m, n, i + 1)
  }

  ghost function Keep(points: seq<set<Ieq>>, saturated: Saturated, cs: seq<Combo>): seq<Combo>
    requires AllWithin(cs, |points|)
  {
    if cs == [] then []
    else (if OnCommonIeq(points, cs[0], saturated) then [cs[0]] else [])
         + Keep(points, saturated, cs[1..])
  }

  lemma KeepFirst(points: seq<set<Ieq>>, saturated: Saturated, c: Combo, cs: seq<Combo>)
    requires Within(c, |points|) && AllWithin(cs, |points|)
    ensures AllWithin([c] + cs, |points|)
    ensures Keep(points, saturated, [c] + cs) ==
            (if OnCommonIeq(points, c, saturated) then [c] else []) + Keep(points, saturated, cs)
  {
    assert ([c] + cs)[1..] == cs;
  }

  lemma {:induction false} KeepConcat(points: seq<set<Ieq>>, saturated: Saturated, a: seq<Combo>, b: seq<Combo>)
    requires AllWithin(a, |points|)
    requires AllWithin(b, |points|)
    ensures Keep(points, saturated, a + b) == Keep(points, saturated, a) + Keep(points, saturated, b)
    decreases |a|
  {
    if a == [] {
      assert a + b == b;
    } else {
      KeepConcat(points, saturated, a[1..], b);
      KeepFirst(points, saturated, a[0], a[1..] + b);
      assert a + b == [a[0]] + (a[1..] + b);
    }
  }

  lemma {:induction false} KeepPrepend(points: seq<set<Ieq>>, saturated: Saturated, i: nat, cs: seq<Combo>)
    requires i < |points| && AllWithin(cs, |points|)
    ensures AllWithin(Prepend(i, cs), |points|)
    ensures Keep(points, saturated, Prepend(i, cs)) ==
            Prepend(i, Keep(points, These(Narrow(points, saturated, i)), cs))
    decreases |cs|
  {
    if cs != [] {
      assert Prepend(i, cs)[1..] == Prepend(i, cs[1..]);
      assert ([i] + cs[0])[1..] == cs[0];
      assert AllWithin([[i] + cs[0]], |points|);
      FirstNarrows(points, [i] + cs[0], saturated);
      KeepPrepend(points, saturated, i, cs[1..]);
    }
  }

  lemma {:induction false} KeepNothing(points: seq<set<Ieq>>, cs: seq<Combo>)
    requires AllWithin(cs, |points|)
    ensures Keep(points, These({}), cs) == []
    decreases |cs|
  {
    if cs != [] {
      KeepNothing(points, cs[1..]);
    }
  }

  lemma {:induction false} PrefixWithin(i: nat, cs: seq<Combo>, m: nat)
    requires i < m && AllWithin(cs, m)
    ensures AllWithin(Prepend(i, cs), m)
  {
  }

  lemma KeepSplits(points: seq<set<Ieq>>, n: nat, i: nat, saturated: Saturated)
    requires n >= 1 && i < |points|
    ensures AllWithin(Prepend(i, AllCombos(|points|, n - 1, i + 1)), |points|)
    ensures Keep(points, saturated, AllCombos(|points|, n, i)) ==
            Keep(points, saturated, Prepend(i, AllCombos(|points|, n - 1, i + 1)))
            + Keep(points, saturated, AllCombos(|points|, n, i + 1))
  {
    PrefixWithin(i, AllCombos(|points|, n - 1, i + 1), |points|);
    KeepConcat(points, saturated, Prepend(i, AllCombos(|points|, n - 1, i + 1)), AllCombos(|points|, n, i + 1));
  }

  lemma StartingIsFiltering(points: seq<set<Ieq>>, n: nat, i: nat, saturated: Saturated)
    requires n >= 1 && i < |points|
    requires var narrowed := These(Narrow(points, saturated, i));
             n > 1 ==> Iterate(points, n - 1, i + 1, narrowed) ==
                       Keep(points, narrowed, AllCombos(|points|, n - 1, i + 1))
    ensures AllWithin(Prepend(i, AllCombos(|points|, n - 1, i + 1)), |points|)
    ensures Starting(points, n, i, saturated) ==
            Keep(points, saturated, Prepend(i, AllCombos(|points|, n - 1, i + 1)))
  {
    var narrowed := Narrow(points, saturated, i);
    var tails := AllCombos(|points|, n - 1, i + 1);
    PrefixWithin(i, tails, |points|);
    KeepPrepend(points, saturated, i, tails);
    if narrowed == {} {
      KeepNothing(points, tails);
    } else if n == 1 {
      assert Keep(points, These(narrowed), [[]]) == [[]] + Keep(points, These(narrowed), []);
      assert [i] + [] == [i];
      assert Prepend(i, [[]]) == [[i]];
    }
  }

  lemma FilterSplits(points: seq<set<Ieq>>, n: nat, i: nat, saturated: Saturated)
    requires n >= 1 && i < |points|
    requires var narrowed := These(Narrow(points, saturated, i));
             n > 1 ==> Iterate(points, n - 1, i + 1, narrowed) ==
                       Keep(points, narrowed, AllCombos(|points|, n - 1, i + 1))
    requires Iterate(points, n, i + 1, saturated) == Keep(points, saturated, AllCombos(|points|, n, i + 1))
    ensures Iterate(points, n, i, saturated) == Keep(points, saturated, AllCombos(|points|, n, i))
  {
    StartingIsFiltering(points, n, i, saturated);
    KeepSplits(points, n, i, saturated);
  }

  /** Pruning early is the same as generating every combination and filtering. */
  lemma {:induction false} PruningIsFiltering(points: seq<set<Ieq>>, n: nat, i: nat, saturated: Saturated)
    requires n >= 1
    ensures Iterate(points, n, i, saturated) == Keep(points, saturated, AllCombos(|points|, n, i))
    decreases |points| - i
  {
    if i < |points| {
      var narrowed := These(Narrow(points, saturated, i));
      PruningIsFiltering(points, n, i + 1, saturated);
      if n > 1 {
        PruningIsFiltering(points, n - 1, i + 1, narrowed);
      }
      FilterSplits(points, n, i, saturated);
    } else {
      assert AllCombos(|points|, n, i) == [];
    }
  }
}
