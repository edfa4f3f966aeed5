/**
 Trimming a conversation to the voice's context budget.
 */
module History {

  datatype Msg = Msg(role: string, content: string)

  datatype Limit = Default | Chars(n: int)

  /** An absent or zero budget falls back on the configured one; never below 1. */
  function Budget(limit: Limit, configured: int): (b: nat)
    ensures b >= 1
  {
    var chars := if limit.Chars? && limit.n != 0 then limit.n else configured;
    if chars < 1 then 1 else chars
  }

  function Size(ms: seq<Msg>): nat {
    if ms == [] then 0 else |ms[0].content| + Size(ms[1..])
  }

  /** Drops the oldest messages until the rest fits or only one is left. */
  function Trim(ms: seq<Msg>, budget: nat): seq<Msg> {
    if |ms| <= 1 || Size(ms) <= budget then ms else Trim(ms[1..], budget)
  }

  lemma {:induction false} SizeConcat(a: seq<Msg>, b: seq<Msg>)
    ensures Size(a + b) == Size(a) + Size(b)
  {
    if a == [] {
      assert a + b == b;
    } else {
      assert (a + b)[1..] == a[1..] + b;
      SizeConcat(a[1..], b);
    }
  }

  lemma SuffixSizes(ms: seq<Msg>, i: nat, j: nat)
    requires i <= j <= |ms|
    ensures Size(ms[j..]) <= Size(ms[i..])
  {
    SizeConcat(ms[i..j], ms[j..]);
    assert ms[i..j] + ms[j..] == ms[i..];
  }

  /** How many messages `Trim` drops. */
  function Dropped(ms: seq<Msg>, budget: nat): (d: nat)
    ensures d <= |ms| && Trim(ms, budget) == ms[d..]
    ensures ms != [] ==> d < |ms|
  {
    if |ms| <= 1 || Size(ms) <= budget then 0 else 1 + Dropped(ms[1..], budget)
  }

  /** `Trim` keeps the longest suffix within the budget, or the last message alone when
      even that is too long: it fits or is one message, and nothing longer fits. */
  lemma {:induction false} TrimIsLongestSuffix(ms: seq<Msg>, budget: nat)
    ensures var d := Dropped(ms, budget);
            && (Size(ms[d..]) <= budget || |ms[d..]| == 1)
            && forall i :: 0 <= i < d ==> Size(ms[i..]) > budget
  {
    if |ms| > 1 && Size(ms) > budget {
      TrimIsLongestSuffix(ms[1..], budget);
      var d := Dropped(ms, budget);
      assert ms[1..][d - 1..] == ms[d..];
      forall i | 0 <= i < d
        ensures Size(ms[i..]) > budget
      {
        if i == 0 {
          assert ms[0..] == ms;
        } else {
          assert ms[1..][i - 1..] == ms[i..];
        }
      }
    } else {
      assert ms[0..] == ms;
    }
  }

  /** The backwards scan: stop at the first message that would overflow the budget. */
  method TrimHistory(messages: seq<Msg>, limit: Limit, configured: int) returns (r: seq<Msg>)
    ensures r == Trim(messages, Budget(limit, configured))
    ensures limit.Chars? && limit.n >= 1 ==> r == Trim(messages, limit.n)
    ensures (limit == Default || limit == Chars(0)) && configured >= 1 ==> r == Trim(messages, configured)
    ensures (limit.Chars? && limit.n < 0) || (!(limit.Chars? && limit.n != 0) && configured < 1) ==>
              r == Trim(messages, 1)
  {
    var budget := Budget(limit, configured);
    var kept: seq<Msg> := [];
    var used := 0;
    var i := |messages|;
    while i > 0
      invariant 0 <= i <= |messages|
      invariant kept == messages[i..] && used == Size(kept)
      invariant used <= budget || |kept| <= 1
      decreases i
    {
      var size := |messages[i - 1].content|;
      ghost var longer := messages[i - 1..];
      assert longer[0] == messages[i - 1] && longer[1..] == messages[i..];
      if kept != [] && used + size > budget {
        break;
      }
      kept := [messages[i - 1]] + kept;
      used := used + size;
      i := i - 1;
      assert kept[1..] == messages[i + 1..];
    }
    CutPoint(messages, budget, i);
    r := if kept != [] then kept else messages[if messages == [] then 0 else |messages| - 1..];
  }

  /** The cut is where the suffix is acceptable and one more message is not. */
  lemma {:induction false} CutPoint(ms: seq<Msg>, budget: nat, i: nat)
    requires i <= |ms| && (i == |ms| ==> ms == [])
    requires Size(ms[i..]) <= budget || |ms| - i <= 1
    requires i > 0 ==> Size(ms[i - 1..]) > budget
    ensures Trim(ms, budget) == ms[i..]
    decreases |ms|
  {
    if i > 0 {
      SuffixSizes(ms, 0, i - 1);
      assert ms[0..] == ms;
      assert ms[1..][i - 1..] == ms[i..];
      if i > 1 {
        assert ms[1..][i - 2..] == ms[i - 1..];
      }
      CutPoint(ms[1..], budget, i - 1);
    } else {
      assert ms[0..] == ms;
    }
  }

  /** Trimming as the exchange grows is trimming the whole exchange at the end. */
  lemma {:induction false} TrimIncremental(xs: seq<Msg>, ys: seq<Msg>, budget: nat)
    ensures Trim(Trim(xs, budget) + ys, budget) == Trim(xs + ys, budget)
    decreases |xs|
  {
    if |xs| > 1 && Size(xs) > budget {
      SizeConcat(xs, ys);
      assert (xs + ys)[1..] == xs[1..] + ys;
      TrimIncremental(xs[1..], ys, budget);
    }
  }

  /** Two budgets in turn are the smaller one. */
  lemma {:induction false} TrimTwice(xs: seq<Msg>, b1: nat, b2: nat)
    ensures Trim(Trim(xs, b1), b2) == Trim(xs, if b1 < b2 then b1 else b2)
    decreases |xs|
  {
    if |xs| > 1 && Size(xs) > b1 {
      TrimTwice(xs[1..], b1, b2);
    } else if b1 < b2 {
      assert |xs| <= 1 || Size(xs) <= b1;
    }
  }
}
