/**
 Enumerating an affine space by an odometer over restartable iterators: advance
 the first coordinate; when its iterator is exhausted restart it at zero and
 carry to the next.
 */
module Odometer {
  import opened Powers
  import opened Sequences

  /** The number whose base-`b` digits are `d`, least significant first. */
  function Value(d: seq<nat>, b: nat): nat {
    if d == [] then 0 else d[0] + b * Value(d[1..], b)
  }

  predicate AreDigits(d: seq<nat>, b: nat) {
    forall j :: 0 <= j < |d| ==> d[j] < b
  }

  function Digits(k: nat, b: nat, n: nat): (d: seq<nat>)
    requires b > 0
    ensures |d| == n && AreDigits(d, b)
    decreases n
  {
    if n == 0 then [] else [k % b] + Digits(k / b, b, n - 1)
  }

  lemma {:induction false} DigitsOfValue(d: seq<nat>, b: nat)
    requires b > 0 && AreDigits(d, b)
    ensures Digits(Value(d, b), b, |d|) == d && Value(d, b) < Power(b, |d|)
  {
    if d != [] {
      DigitsOfValue(d[1..], b);
      var v := Value(d[1..], b);
      DivideOut(d[0], v, b);
      BelowProduct(d[0], v, b, Power(b, |d| - 1));
      assert d == [d[0]] + d[1..];
    }
  }

  lemma {:induction false} ValueOfDigits(k: nat, b: nat, n: nat)
    requires b > 0 && k < Power(b, n)
    ensures Value(Digits(k, b, n), b) == k
    decreases n
  {
    if n > 0 {
      var q := k / b;
      QuotientBelow(k, b, Power(b, n - 1));
      ValueOfDigits(q, b, n - 1);
      assert Digits(k, b, n) == [k % b] + Digits(q, b, n - 1);
      ValueOfCons(k % b, Digits(q, b, n - 1), b);
      QuotientAndRest(k, b);
    }
  }

  lemma ValueOfCons(x: nat, d: seq<nat>, b: nat)
    ensures Value([x] + d, b) == x + b * Value(d, b)
  {
  }

  lemma QuotientAndRest(k: nat, b: nat)
    requires b > 0
    ensures k == k % b + b * (k / b)
  {
  }

  lemma {:induction false} AtLeast(b: nat, d: nat)
    requires d >= 1
    ensures b * d >= b
  {
  }

  lemma LessProduct(b: nat, x: int, y: int)
    requires x < y
    ensures b * x + b <= b * y
  {
    AtLeast(b, y - x);
    assert b * (y - x) == b * y - b * x;
  }

  lemma ProductOrder(b: nat, x: int, y: int)
    ensures x < y ==> b * x + b <= b * y
    ensures b * x < b * y ==> x < y
  {
    if x < y {
      LessProduct(b, x, y);
    } else if y < x {
      LessProduct(b, y, x);
    }
  }

  lemma DivideOut(r: nat, v: nat, b: nat)
    requires r < b
    ensures (r + b * v) % b == r && (r + b * v) / b == v
  {
    var k := r + b * v;
    var q, m := k / b, k % b;
    assert k == b * q + m && 0 <= m < b;
    ProductOrder(b, q, v);
    ProductOrder(b, v, q);
    assert q == v;
  }

  lemma BelowProduct(r: nat, v: nat, b: nat, p: int)
    requires r < b && v < p
    ensures r + b * v < b * p
  {
    ProductOrder(b, v, p);
  }

  lemma QuotientBelow(k: nat, b: nat, p: int)
    requires b > 0 && k < b * p
    ensures k / b < p
  {
  }

  lemma ShiftedUp(b: int, v: int, change: int, p: int)
    ensures b * (v + change * p) == b * v + change * (b * p)
  {
  }

  lemma {:induction false} ValueUpdate(d: seq<nat>, j: nat, x: nat, b: nat)
    requires j < |d|
    ensures Value(d[j := x], b) == Value(d, b) + (x - d[j]) * Power(b, j)
  {
    if j > 0 {
      ValueUpdate(d[1..], j - 1, x, b);
      assert d[j := x][1..] == d[1..][j - 1 := x];
      ShiftedUp(b, Value(d[1..], b), x - d[j], Power(b, j - 1));
    } else {
      assert d[0 := x][1..] == d[1..];
    }
  }

  lemma {:induction false} ValueOfZeros(d: seq<nat>, b: nat)
    requires forall j :: 0 <= j < |d| ==> d[j] == 0
    ensures Value(d, b) == 0
  {
    if d != [] {
      ValueOfZeros(d[1..], b);
    }
  }

  /** The `k`-th tuple: coordinate `j` is the element of `L` named by digit `j` of `k`. */
  function Tuple<T>(L: seq<T>, k: nat, n: nat): (t: seq<T>)
    requires L != [] || n == 0
    ensures |t| == n
  {
    seq(n, j requires 0 <= j < n => L[Digits(k, |L|, n)[j]])
  }

  function Offsets(pos: seq<nat>): seq<nat>
    requires forall j :: 0 <= j < |pos| ==> pos[j] >= 1
  {
    seq(|pos|, j requires 0 <= j < |pos| => pos[j] - 1)
  }

  function FromOffsets<T>(L: seq<T>, pos: seq<nat>): seq<T>
    requires forall j :: 0 <= j < |pos| ==> 1 <= pos[j] <= |L|
  {
    seq(|pos|, j requires 0 <= j < |pos| => L[pos[j] - 1])
  }

  /** The odometer between two yields: coordinates below `i` are back at zero and owe a
      carry to coordinate `i`; `count` tuples have been yielded. */
  ghost predicate Reading(size: nat, pos: seq<nat>, i: nat, count: nat) {
    && (forall j :: 0 <= j < |pos| ==> 1 <= pos[j] <= size)
    && i <= |pos| && (forall j :: 0 <= j < i ==> pos[j] == 1)
    && Value(Offsets(pos), size) + Power(size, i) == count
  }

  lemma Carry(size: nat, pos: seq<nat>, i: nat, count: nat)
    requires Reading(size, pos, i, count) && i < |pos| && pos[i] == size
    ensures Reading(size, pos[i := 1], i + 1, count)
  {
    var d, p := Offsets(pos), Power(size, i);
    assert Offsets(pos[i := 1]) == d[i := 0];
    ValueUpdate(d, i, 0, size);
    assert (0 - d[i]) * p + size * p == p by {
      CarryArithmetic(size, p);
    }
  }

  lemma CarryArithmetic(size: int, p: int)
    ensures (0 - (size - 1)) * p + size * p == p
  {
  }

  lemma AdvanceValue(size: nat, pos: seq<nat>, i: nat, count: nat)
    requires Reading(size, pos, i, count) && i < |pos| && pos[i] < size
    ensures Reading(size, pos[i := pos[i] + 1], 0, count + 1)
    ensures Value(Offsets(pos[i := pos[i] + 1]), size) == count
  {
    var d := Offsets(pos);
    assert Offsets(pos[i := pos[i] + 1]) == d[i := d[i] + 1];
    ValueUpdate(d, i, d[i] + 1, size);
  }

  lemma Advance<T>(L: seq<T>, pos: seq<nat>, i: nat, count: nat)
    requires Reading(|L|, pos, i, count) && i < |pos| && pos[i] < |L|
    ensures Reading(|L|, pos[i := pos[i] + 1], 0, count + 1)
    ensures FromOffsets(L, pos[i := pos[i] + 1]) == Tuple(L, count, |pos|)
    ensures count < Power(|L|, |pos|)
  {
    AdvanceValue(|L|, pos, i, count);
    var next := Offsets(pos[i := pos[i] + 1]);
    DigitsOfValue(next, |L|);
    assert Digits(count, |L|, |pos|) == next;
  }

  lemma Finished(size: nat, pos: seq<nat>, count: nat)
    requires Reading(size, pos, |pos|, count)
    ensures count == Power(size, |pos|)
  {
    ValueOfZeros(Offsets(pos), size);
  }

  /** `L` is what each iterator yields from a fresh start.  An iterator with nothing to
      yield makes the generator fail after its first point. */
  method PointsOfBoundedHeight<T>(zero: T, L: seq<T>, n: nat) returns (points: seq<seq<T>>, failed: bool)
    requires L != [] ==> L[0] == zero
    ensures failed <==> L == [] && n > 0
    ensures failed ==> points == [seq(n, _ => zero)]
    ensures !failed ==> |points| == Power(|L|, n) && forall k :: 0 <= k < |points| ==> points[k] == Tuple(L, k, n)
  {
    var P := seq(n, _ => zero);
    points := [P];
    if L == [] && n > 0 {
      return points, true;
    }
    var pos: seq<nat> := seq(n, _ => 1);
    var i := 0;
    ValueOfZeros(Offsets(pos), |L|);
    if n > 0 {
      DigitsOfValue(Offsets(pos), |L|);
    }
    assert P == Tuple(L, 0, n);
    while i < n
      invariant |pos| == n && Reading(|L|, pos, i, |points|)
      invariant P == FromOffsets(L, pos)
      invariant forall k :: 0 <= k < |points| ==> points[k] == Tuple(L, k, n)
      invariant |points| <= Power(|L|, n)
      decreases Power(|L|, n) - |points|, n - i
    {
      if pos[i] < |L| {
        Advance(L, pos, i, |points|);
        pos := pos[i := pos[i] + 1];
        P := P[i := L[pos[i] - 1]];
        points := points + [P];
        i := 0;
      } else {
        Carry(|L|, pos, i, |points|);
        pos := pos[i := 1];
        P := P[i := zero];
        i := i + 1;
      }
    }
    Finished(|L|, pos, |points|);
    failed := false;
  }

  /** Every tuple over `L` is one of those yielded... */
  lemma EveryTupleAppears<T>(L: seq<T>, t: seq<T>)
    requires L != [] && forall j :: 0 <= j < |t| ==> t[j] in L
    ensures exists k :: 0 <= k < Power(|L|, |t|) && Tuple(L, k, |t|) == t
  {
    var d := Positions(L, t);
    DigitsOfValue(d, |L|);
    assert Tuple(L, Value(d, |L|), |t|) == t;
  }

  lemma {:induction false} Positions<T>(L: seq<T>, t: seq<T>) returns (d: seq<nat>)
    requires forall j :: 0 <= j < |t| ==> t[j] in L
    ensures |d| == |t| && AreDigits(d, |L|) && forall j :: 0 <= j < |t| ==> L[d[j]] == t[j]
  {
    if t == [] {
      d := [];
    } else {
      var p :| 0 <= p < |L| && L[p] == t[0];
      var rest := Positions(L, t[1..]);
      d := [p] + rest;
    }
  }

  /** ...and only once, if the iterator never repeats itself. */
  lemma NoTupleTwice<T>(L: seq<T>, n: nat, a: nat, b: nat)
    requires L != [] && Distinct(L) && a < Power(|L|, n) && b < Power(|L|, n)
    requires Tuple(L, a, n) == Tuple(L, b, n)
    ensures a == b
  {
    var da, db := Digits(a, |L|, n), Digits(b, |L|, n);
    forall j | 0 <= j < n
      ensures da[j] == db[j]
    {
      assert Tuple(L, a, n)[j] == Tuple(L, b, n)[j];
    }
    assert da == db;
    ValueOfDigits(a, |L|, n);
    ValueOfDigits(b, |L|, n);
  }
}
