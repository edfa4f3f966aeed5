/**
 One chat turn: the voice speaks, the response is weighed, tool intents are
 offered to the ledger, and the fruit of what was executed goes back to the
 voice until a response acts no more or a fault breaker trips.  The voice, the
 value engine, the intent parser and the tool layer are arbitrary functions.
 */
module ChatTurn {
  import opened Wrappers
  import opened History

  datatype Zone = Aligned | AcceptableVariance | Violation
  datatype Verdict = Verdict(zone: Zone, score: int)
  /** `args` is a dictionary: it can be compared for equality but not ordered. */
  datatype Intent = Intent(tool: string, args: map<string, string>)
  datatype Status = Executed | Failed | AwaitingCounsel | Refused | Withheld
  datatype Proposal = Proposal(tool: string, status: Status, output: string)

  datatype World = World(
    voice: (nat, seq<Msg>) -> string,
    weigh: (nat, string) -> Verdict,
    parse: string -> seq<Intent>,
    offer: (nat, seq<Intent>) -> seq<Proposal>,
    signature: seq<Intent> -> string,
    storeReady: bool, maxPasses: int, fruitChars: nat, historyChars: int)

  datatype Request = Request(history: seq<Msg>, message: string, foresight: string)

  datatype Pass = Pass(response: string, verdict: Verdict, intents: seq<Intent>, proposals: seq<Proposal>)

  /** What a turn appends to the session's working memory. */
  datatype Entry =
    | UserSaid(text: string)
    | LinaSaid(text: string)
    | Fruit(tool: string, status: Status, text: string)
    | Foresight(text: string)

  /** How a turn ends: with words and their verdict delivered, or by an exception of the loop's own. */
  datatype Outcome = Delivered(words: string, verdict: Verdict) | Crashed

  const PRIOR_CHARS := 6000
  const CHAIN_CHARS := 9000
  const MAX_REPEATS := 4

  function Clip(s: string, n: nat): string {
    if |s| <= n then s else s[..n]
  }

  predicate DidAct(p: Proposal) {
    p.status.Executed? || p.status.Failed?
  }

  function Acted(ps: seq<Proposal>): seq<Proposal> {
    if ps == [] then [] else (if DidAct(ps[0]) then [ps[0]] else []) + Acted(ps[1..])
  }

  function Withhold(intents: seq<Intent>): (ps: seq<Proposal>)
    ensures |ps| == |intents|
    ensures forall i :: 0 <= i < |ps| ==> ps[i] == Proposal(intents[i].tool, Withheld, "")
  {
    seq(|intents|, i requires 0 <= i < |intents| => Proposal(intents[i].tool, Withheld, ""))
  }

  function Offered(w: World, pass: nat, verdict: Verdict, intents: seq<Intent>): seq<Proposal> {
    if intents == [] then []
    else if verdict.zone.Violation? then Withhold(intents)
    else if w.storeReady then w.offer(pass, intents)
    else []
  }

  function StatusWord(s: Status): string {
    match s
    case Executed => "executed"
    case Failed => "failed"
    case AwaitingCounsel => "awaiting_counsel"
    case Refused => "refused"
    case Withheld => "withheld"
  }

  function FruitMessage(w: World, p: Proposal): Msg {
    Msg("user", "[tool " + p.tool + " \U{2014} " + StatusWord(p.status) + "]\n" + Clip(p.output, w.fruitChars))
  }

  function FruitMessages(w: World, acted: seq<Proposal>): seq<Msg> {
    if acted == [] then [] else [FruitMessage(w, acted[0])] + FruitMessages(w, acted[1..])
  }

  /** What one continued pass adds to the exchange with the voice. */
  function Exchange(w: World, p: Pass): seq<Msg> {
    [Msg("assistant", p.response)] + FruitMessages(w, Acted(p.proposals))
  }

  function ExchangeOf(w: World, passes: seq<Pass>): seq<Msg> {
    if passes == [] then []
    else ExchangeOf(w, passes[..|passes| - 1]) + Exchange(w, passes[|passes| - 1])
  }

  function Window(w: World, req: Request): seq<Msg> {
    Trim(req.history, Budget(Default, w.historyChars))
  }

  /** The messages the voice is given before pass `|before|`: the first time the trimmed
      history, afterwards a shorter one and the whole exchange so far, trimmed. */
  function Given(w: World, req: Request, before: seq<Pass>): seq<Msg> {
    var goal := [Msg("user", req.message)];
    if before == [] then Window(w, req) + goal
    else Trim(Window(w, req), PRIOR_CHARS) + goal + Trim(ExchangeOf(w, before), CHAIN_CHARS)
  }

  predicate GoodPass(w: World, req: Request, passes: seq<Pass>, i: nat)
    requires i < |passes|
  {
    var p := passes[i];
    && p.response == w.voice(i, Given(w, req, passes[..i]))
    && p.verdict == w.weigh(i, p.response)
    && p.intents == w.parse(p.response)
    && p.proposals == Offered(w, i, p.verdict, p.intents)
  }

  /** Does one response name a tool twice, with different arguments? */
  predicate Clash(intents: seq<Intent>) {
    exists i, j :: 0 <= i < j < |intents| && intents[i].tool == intents[j].tool && intents[i].args != intents[j].args
  }

  /** The signature sorts pairs of tool and arguments.  Sorting has to compare the arguments of
      two different pairs for the same tool, and dictionaries have no order: it raises. */
  function Signature(w: World, intents: seq<Intent>): Option<string> {
    if Clash(intents) then None else Some(w.signature(intents))
  }

  /** How many passes in a row, up to pass `i`, carried the signature of pass `i`. */
  function Repeats(w: World, passes: seq<Pass>, i: nat): (n: nat)
    requires i < |passes|
    ensures 1 <= n <= i + 1
  {
    if i > 0 && Signature(w, passes[i].intents) == Signature(w, passes[i - 1].intents)
    then Repeats(w, passes, i - 1) + 1
    else 1
  }

  /** Does pass `i` act, with passes to spare? */
  predicate WouldGoOn(w: World, passes: seq<Pass>, i: nat)
    requires i < |passes|
  {
    passes[i].intents != [] && Acted(passes[i].proposals) != [] && i + 1 < w.maxPasses
  }

  /** Does the turn go on after pass `i`? */
  predicate Continues(w: World, passes: seq<Pass>, i: nat)
    requires i < |passes|
  {
    WouldGoOn(w, passes, i) && !Clash(passes[i].intents) && Repeats(w, passes, i) < MAX_REPEATS
  }

  /** Does the loop raise in pass `i`? */
  predicate Crashes(w: World, passes: seq<Pass>, i: nat)
    requires i < |passes|
  {
    WouldGoOn(w, passes, i) && Clash(passes[i].intents)
  }

  /** `passes` is the whole turn: each pass is what the world answers, all but the last
      go on, and the last does not. */
  ghost predicate IsTurn(w: World, req: Request, passes: seq<Pass>) {
    && passes != []
    && (forall i :: 0 <= i < |passes| ==> GoodPass(w, req, passes, i))
    && (forall i :: 0 <= i < |passes| - 1 ==> Continues(w, passes, i))
    && !Continues(w, passes, |passes| - 1)
  }

  function Fruits(w: World, acted: seq<Proposal>): seq<Entry> {
    if acted == [] then []
    else [Fruit(acted[0].tool, acted[0].status, Clip(acted[0].output, w.fruitChars))] + Fruits(w, acted[1..])
  }

  function PassMemory(w: World, p: Pass): seq<Entry> {
    Fruits(w, Acted(p.proposals)) + [LinaSaid(p.response)]
  }

  function MemoryOf(w: World, passes: seq<Pass>): seq<Entry> {
    if passes == [] then []
    else MemoryOf(w, passes[..|passes| - 1]) + PassMemory(w, passes[|passes| - 1])
  }

  function ProposalsOf(passes: seq<Pass>): seq<Proposal> {
    if passes == [] then [] else ProposalsOf(passes[..|passes| - 1]) + passes[|passes| - 1].proposals
  }

  function OutcomeOf(w: World, passes: seq<Pass>): Outcome
    requires passes != []
  {
    var n := |passes| - 1;
    if Crashes(w, passes, n) then Crashed else Delivered(passes[n].response, passes[n].verdict)
  }

  /** Memory after the turn. */
  function TurnMemory(w: World, req: Request, passes: seq<Pass>): seq<Entry>
    requires passes != []
  {
    var n := |passes| - 1;
    [UserSaid(req.message)] + MemoryOf(w, passes[..n]) + Ending(w, req, passes[n], Crashes(w, passes, n))
  }

  /** The foresight note slips in before her last words.  A crash leaves the fruit of the last
      pass, but neither the note nor the words. */
  function Ending(w: World, req: Request, last: Pass, crashed: bool): seq<Entry> {
    if crashed then Fruits(w, Acted(last.proposals)) else Closing(w, req, last)
  }

  function Closing(w: World, req: Request, last: Pass): seq<Entry> {
    var note := if req.foresight == "" then [] else [Foresight(Clip(req.foresight, 500))];
    Fruits(w, Acted(last.proposals)) + (note + [LinaSaid(last.response)])
  }

  lemma GoodPassExtends(w: World, req: Request, passes: seq<Pass>, p: Pass, i: nat)
    requires i < |passes|
    ensures GoodPass(w, req, passes + [p], i) == GoodPass(w, req, passes, i)
  {
    assert (passes + [p])[..i] == passes[..i];
  }

  lemma {:induction false} RepeatsExtends(w: World, passes: seq<Pass>, p: Pass, i: nat)
    requires i < |passes|
    ensures Repeats(w, passes + [p], i) == Repeats(w, passes, i)
  {
    if i > 0 {
      RepeatsExtends(w, passes, p, i - 1);
    }
  }

  /** A turn still under way: every pass so far is right and goes on. */
  ghost predicate Ongoing(w: World, req: Request, passes: seq<Pass>) {
    forall i :: 0 <= i < |passes| ==> GoodPass(w, req, passes, i) && Continues(w, passes, i)
  }

  function Answer(w: World, pass: nat, response: string): Pass {
    var verdict := w.weigh(pass, response);
    var intents := w.parse(response);
    Pass(response, verdict, intents, Offered(w, pass, verdict, intents))
  }

  /** One more pass either ends the turn or leaves it under way. */
  lemma OnePassMore(w: World, req: Request, before: seq<Pass>, p: Pass)
    requires Ongoing(w, req, before)
    requires p == Answer(w, |before|, w.voice(|before|, Given(w, req, before)))
    ensures if Continues(w, before + [p], |before|) then Ongoing(w, req, before + [p])
            else IsTurn(w, req, before + [p])
    ensures Repeats(w, before + [p], |before|) ==
            if before != [] && Signature(w, p.intents) == Signature(w, before[|before| - 1].intents)
            then Repeats(w, before, |before| - 1) + 1 else 1
  {
    var passes := before + [p];
    forall i | 0 <= i < |before|
      ensures GoodPass(w, req, passes, i) && Continues(w, passes, i)
      ensures Repeats(w, passes, i) == Repeats(w, before, i)
    {
      GoodPassExtends(w, req, before, p, i);
      RepeatsExtends(w, before, p, i);
    }
    assert passes[..|before|] == before;
    assert GoodPass(w, req, passes, |before|);
  }

  lemma RecordsGrow(w: World, before: seq<Pass>, p: Pass)
    ensures MemoryOf(w, before + [p]) == MemoryOf(w, before) + PassMemory(w, p)
    ensures ProposalsOf(before + [p]) == ProposalsOf(before) + p.proposals
    ensures ExchangeOf(w, before + [p]) == ExchangeOf(w, before) + Exchange(w, p)
  {
  }

  /** The variables the loop carries from pass to pass. */
  datatype Loop = Loop(delivered: string, chain: seq<Msg>, memory: seq<Entry>, proposals: seq<Proposal>,
                       lastSignature: string, repeats: nat)

  ghost predicate Tracks(w: World, req: Request, passes: seq<Pass>, l: Loop) {
    && Ongoing(w, req, passes)
    && l.delivered == w.voice(|passes|, Given(w, req, passes))
    && l.chain == Trim(ExchangeOf(w, passes), CHAIN_CHARS)
    && l.memory == [UserSaid(req.message)] + MemoryOf(w, passes)
    && l.proposals == ProposalsOf(passes)
    && (passes != [] ==>
          && Some(l.lastSignature) == Signature(w, passes[|passes| - 1].intents)
          && l.repeats == Repeats(w, passes, |passes| - 1)
          && |passes| < w.maxPasses)
  }

  /** The repeat counter once pass `p` has acted. */
  function Repeated(w: World, l: Loop, first: bool, p: Pass): nat {
    if !first && Signature(w, p.intents) == Some(l.lastSignature) then l.repeats + 1 else 1
  }

  /** The loop's tests decide what becomes of the turn after pass `p`. */
  lemma GuardsDecide(w: World, req: Request, before: seq<Pass>, l: Loop, p: Pass)
    requires Tracks(w, req, before, l) && p == Answer(w, |before|, l.delivered)
    ensures WouldGoOn(w, before + [p], |before|) <==>
            p.intents != [] && Acted(p.proposals) != [] && |before| + 1 < w.maxPasses
    ensures Continues(w, before + [p], |before|) <==>
            && WouldGoOn(w, before + [p], |before|)
            && Signature(w, p.intents).Some? && Repeated(w, l, before == [], p) < MAX_REPEATS
    ensures !Continues(w, before + [p], |before|) ==> IsTurn(w, req, before + [p])
  {
    OnePassMore(w, req, before, p);
  }

  /** What the turn leaves behind if pass `p` is its last. */
  lemma RecordsEnd(w: World, req: Request, before: seq<Pass>, l: Loop, p: Pass)
    requires Tracks(w, req, before, l)
    ensures l.memory + Ending(w, req, p, Crashes(w, before + [p], |before|)) == TurnMemory(w, req, before + [p])
    ensures l.proposals + p.proposals == ProposalsOf(before + [p])
  {
  }

  lemma ChainAdvances(w: World, req: Request, before: seq<Pass>, p: Pass, chain: seq<Msg>)
    requires chain == Trim(Trim(ExchangeOf(w, before), CHAIN_CHARS) + Exchange(w, p), CHAIN_CHARS)
    ensures chain == Trim(ExchangeOf(w, before + [p]), CHAIN_CHARS)
    ensures Given(w, req, before + [p]) ==
            Trim(Window(w, req), PRIOR_CHARS) + [Msg("user", req.message)] + chain
  {
    RecordsGrow(w, before, p);
    TrimIncremental(ExchangeOf(w, before), Exchange(w, p), CHAIN_CHARS);
  }

  lemma MemoryAdvances(w: World, start: Entry, before: seq<Pass>, p: Pass, memory: seq<Entry>)
    requires memory == [start] + MemoryOf(w, before)
    ensures memory + Fruits(w, Acted(p.proposals)) + [LinaSaid(p.response)] == [start] + MemoryOf(w, before + [p])
  {
  }

  /** Going on keeps the loop's variables in step with the passes so far. */
  lemma LoopAdvances(w: World, req: Request, before: seq<Pass>, l: Loop, p: Pass, chain: seq<Msg>)
    requires Tracks(w, req, before, l) && p == Answer(w, |before|, l.delivered)
    requires Continues(w, before + [p], |before|) && Signature(w, p.intents).Some?
    requires chain == Trim(l.chain + Exchange(w, p), CHAIN_CHARS)
    ensures var sent := Trim(Window(w, req), PRIOR_CHARS) + [Msg("user", req.message)] + chain;
            Tracks(w, req, before + [p],
                   Loop(w.voice(|before| + 1, sent), chain,
                        l.memory + Fruits(w, Acted(p.proposals)) + [LinaSaid(p.response)],
                        l.proposals + p.proposals, Signature(w, p.intents).value, Repeated(w, l, before == [], p)))
  {
    OnePassMore(w, req, before, p);
    RecordsGrow(w, before, p);
    ChainAdvances(w, req, before, p, chain);
    MemoryAdvances(w, UserSaid(req.message), before, p, l.memory);
  }

  /** What the passes put into memory, first to last: their tool results, then their words. */
  function Logged(w: World, passes: seq<Pass>): seq<Entry> {
    if passes == [] then []
    else ResultsOf(w, passes[0].proposals) + [LinaSaid(passes[0].response)] + Logged(w, passes[1..])
  }

  lemma {:induction false} LoggedLast(w: World, passes: seq<Pass>, p: Pass)
    ensures Logged(w, passes + [p]) ==
            Logged(w, passes) + (ResultsOf(w, p.proposals) + [LinaSaid(p.response)])
    decreases |passes|
  {
    if passes == [] {
      assert [] + [p] == [p] && [p][1..] == [];
      assert Logged(w, [p]) == ResultsOf(w, p.proposals) + [LinaSaid(p.response)] + [];
    } else {
      LoggedLast(w, passes[1..], p);
      assert (passes + [p])[0] == passes[0] && (passes + [p])[1..] == passes[1..] + [p];
      var head := ResultsOf(w, passes[0].proposals) + [LinaSaid(passes[0].response)];
      assert head + (Logged(w, passes[1..]) + (ResultsOf(w, p.proposals) + [LinaSaid(p.response)])) ==
             (head + Logged(w, passes[1..])) + (ResultsOf(w, p.proposals) + [LinaSaid(p.response)]);
    }
  }

  lemma {:induction false} MemoryIsLogged(w: World, passes: seq<Pass>)
    ensures MemoryOf(w, passes) == Logged(w, passes)
    decreases |passes|
  {
    if passes == [] {
      assert Logged(w, passes) == [];
    } else {
      var n := |passes| - 1;
      MemoryIsLogged(w, passes[..n]);
      LoggedLast(w, passes[..n], passes[n]);
      FruitsAreResults(w, passes[n].proposals);
      assert passes[..n] + [passes[n]] == passes;
    }
  }

  lemma EndingIsLogged(w: World, req: Request, last: Pass, crashed: bool)
    ensures Ending(w, req, last, crashed) ==
            ResultsOf(w, last.proposals) + if crashed then [] else Note(req) + [LinaSaid(last.response)]
  {
    FruitsAreResults(w, last.proposals);
  }

  /** What is left of a turn.  Delivered are the last words of the turn, with the verdict that
      weighed them, and they are the last words in memory; memory holds her words pass by pass,
      one tool result for everything carried out, the user's message and the foresight note.
      A crash loses the words of its pass and the note. */
  ghost predicate IsRecord(w: World, req: Request, passes: seq<Pass>,
                           memory: seq<Entry>, proposals: seq<Proposal>, outcome: Outcome)
    requires passes != []
  {
    var n := |passes| - 1;
    && (outcome.Delivered? ==>
          && outcome.words == passes[n].response && outcome.verdict == w.weigh(n, outcome.words)
          && Words(memory) == Responses(passes) && Words(memory)[n] == outcome.words)
    && (outcome.Crashed? ==> Words(memory) == Responses(passes[..n]))
    && memory == [UserSaid(req.message)] + Logged(w, passes[..n]) + (ResultsOf(w, passes[n].proposals) +
                 if outcome.Crashed? then [] else Note(req) + [LinaSaid(passes[n].response)])
    && Results(memory) == ResultsOf(w, proposals)
  }

  lemma TurnIsRecorded(w: World, req: Request, passes: seq<Pass>)
    requires IsTurn(w, req, passes)
    ensures IsRecord(w, req, passes, TurnMemory(w, req, passes), ProposalsOf(passes), OutcomeOf(w, passes))
  {
    var n := |passes| - 1;
    assert GoodPass(w, req, passes, n);
    MemoryRecordsTurn(w, req, passes);
    MemoryIsLogged(w, passes[..n]);
    EndingIsLogged(w, req, passes[n], Crashes(w, passes, n));
  }

  /** The turn loop.  Memory and proposals are what stands after it, however it ends. */
  method RunTurn(w: World, req: Request)
    returns (passes: seq<Pass>, memory: seq<Entry>, proposals: seq<Proposal>, outcome: Outcome)
    ensures IsTurn(w, req, passes)
    ensures memory == TurnMemory(w, req, passes)
    ensures proposals == ProposalsOf(passes)
    ensures outcome == OutcomeOf(w, passes)
    ensures IsRecord(w, req, passes, memory, proposals, outcome)
  {
    var apiHistory := TrimHistory(req.history, Default, w.historyChars);
    var goal := [Msg("user", req.message)];
    var prior := TrimHistory(apiHistory, Chars(PRIOR_CHARS), w.historyChars);
    var l := Loop(w.voice(0, apiHistory + goal), [], [UserSaid(req.message)], [], "", 0);
    passes := [];
    assert Tracks(w, req, passes, l);
    while true
      invariant Tracks(w, req, passes, l)
      decreases w.maxPasses - |passes|
    {
      var p := Answer(w, |passes|, l.delivered);
      var acted := Acted(p.proposals);
      GuardsDecide(w, req, passes, l, p);
      RecordsEnd(w, req, passes, l, p);
      proposals := l.proposals + p.proposals;
      if !Continues(w, passes + [p], |passes|) {
        TurnIsRecorded(w, req, passes + [p]);
      }
      if p.intents == [] || acted == [] || |passes| + 1 >= w.maxPasses {
        return passes + [p], l.memory + Closing(w, req, p), proposals, Delivered(p.response, p.verdict);
      }
      var signature := Signature(w, p.intents);
      if signature.None? {
        return passes + [p], l.memory + Fruits(w, acted), proposals, Crashed;
      }
      var repeats := Repeated(w, l, passes == [], p);
      if repeats >= MAX_REPEATS {
        return passes + [p], l.memory + Closing(w, req, p), proposals, Delivered(p.response, p.verdict);
      }
      var chain := TrimHistory(l.chain + Exchange(w, p), Chars(CHAIN_CHARS), w.historyChars);
      LoopAdvances(w, req, passes, l, p, chain);
      l := Loop(w.voice(|passes| + 1, prior + goal + chain), chain,
                l.memory + Fruits(w, acted) + [LinaSaid(p.response)],
                proposals, signature.value, repeats);
      passes := passes + [p];
    }
  }

  // ----- What every turn satisfies, whatever the world does -----

  lemma TurnIsBounded(w: World, req: Request, passes: seq<Pass>)
    requires IsTurn(w, req, passes)
    ensures |passes| <= if w.maxPasses > 1 then w.maxPasses else 1
  {
    if |passes| > 1 {
      assert Continues(w, passes, |passes| - 2);
    }
  }

  /** The turn crashes exactly if some pass acted, with passes to spare, on a response that names
      one tool twice with different arguments; that pass is then the last. */
  lemma CrashesExactlyWhen(w: World, req: Request, passes: seq<Pass>)
    requires IsTurn(w, req, passes)
    ensures OutcomeOf(w, passes).Crashed? <==> exists i :: 0 <= i < |passes| && Crashes(w, passes, i)
    ensures forall i :: 0 <= i < |passes| && Crashes(w, passes, i) ==> i == |passes| - 1
  {
    forall i | 0 <= i < |passes| && Crashes(w, passes, i)
      ensures i == |passes| - 1
    {
      assert !Continues(w, passes, i);
    }
  }

  /** A world in which every response asks for two commands, and both run. */
  function TwoCommands(): World {
    World((i, messages) => "", (i, response) => Verdict(Aligned, 0),
          response => [Intent("command", map["command" := "ls"]), Intent("command", map["command" := "pwd"])],
          (i, intents) => [Proposal("command", Executed, "a"), Proposal("command", Executed, "b")],
          intents => "", true, 50, 3000, 10000)
  }

  /** Two different commands in one response are carried out, and then the turn is lost. */
  lemma TwoCommandsCrash(req: Request, passes: seq<Pass>)
    requires IsTurn(TwoCommands(), req, passes)
    ensures |passes| == 1 && OutcomeOf(TwoCommands(), passes).Crashed?
    ensures Words(TurnMemory(TwoCommands(), req, passes)) == []
    ensures Results(TurnMemory(TwoCommands(), req, passes)) ==
            [Fruit("command", Executed, "a"), Fruit("command", Executed, "b")]
  {
    var w := TwoCommands();
    assert GoodPass(w, req, passes, 0);
    var intents := passes[0].intents;
    assert intents[0].args["command"] == "ls" && intents[1].args["command"] == "pwd";
    assert Clash(intents);
    assert Acted(passes[0].proposals)[0] == Proposal("command", Executed, "a");
    assert !Continues(w, passes, 0);
    assert Crashes(w, passes, 0);
    MemoryRecordsTurn(w, req, passes);
    assert passes[..0] == [];
    assert ProposalsOf(passes) == [] + passes[0].proposals == passes[0].proposals;
    TwoResults(w, Proposal("command", Executed, "a"), Proposal("command", Executed, "b"));
  }

  lemma TwoResults(w: World, p: Proposal, q: Proposal)
    requires p.status.Executed? && q.status.Executed? && |p.output| <= w.fruitChars && |q.output| <= w.fruitChars
    ensures ResultsOf(w, [p, q]) == [Fruit(p.tool, Executed, p.output), Fruit(q.tool, Executed, q.output)]
  {
    assert [p][..0] == [];
    assert ResultsOf(w, [p]) == [Fruit(p.tool, Executed, p.output)];
    assert [p, q][..1] == [p];
  }

  /** Four passes in a row with one signature end the turn: there is never a fifth. */
  lemma SpinIsBroken(w: World, req: Request, passes: seq<Pass>, i: nat)
    requires IsTurn(w, req, passes) && i + 3 < |passes|
    requires forall k :: i <= k <= i + 3 ==>
               Signature(w, passes[k].intents) == Signature(w, passes[i].intents)
    ensures |passes| == i + 4
  {
    assert Signature(w, passes[i + 3].intents) == Signature(w, passes[i + 2].intents)
        == Signature(w, passes[i + 1].intents);
    assert Repeats(w, passes, i + 1) >= 2;
    assert Repeats(w, passes, i + 2) >= 3;
    assert Repeats(w, passes, i + 3) >= MAX_REPEATS;
    assert !Continues(w, passes, i + 3);
  }

  /** Was anything carried out, well or badly? */
  predicate SomethingRan(ps: seq<Proposal>) {
    exists k :: 0 <= k < |ps| && (ps[k].status.Executed? || ps[k].status.Failed?)
  }

  lemma {:induction false} ActedIfSomethingRan(ps: seq<Proposal>)
    ensures Acted(ps) != [] <==> SomethingRan(ps)
  {
    if ps == [] {
      assert Acted(ps) == [];
    } else {
      ActedIfSomethingRan(ps[1..]);
      if SomethingRan(ps) {
        var k :| 0 <= k < |ps| && (ps[k].status.Executed? || ps[k].status.Failed?);
        assert k > 0 ==> ps[1..][k - 1] == ps[k];
      }
      if SomethingRan(ps[1..]) {
        var k :| 0 <= k < |ps[1..]| && (ps[1..][k].status.Executed? || ps[1..][k].status.Failed?);
        assert ps[k + 1] == ps[1..][k];
      }
    }
  }

  /** The last `m` signatures up to pass `i` are the same. */
  predicate SameLast(w: World, passes: seq<Pass>, i: nat, m: nat)
    requires i < |passes|
  {
    m <= i + 1 && forall k :: i + 1 - m <= k < i ==> w.signature(passes[k].intents) == w.signature(passes[i].intents)
  }

  lemma {:induction false} RepeatsExactly(w: World, passes: seq<Pass>, i: nat, m: nat)
    requires i < |passes| && 1 <= m && forall k :: 0 <= k <= i ==> !Clash(passes[k].intents)
    ensures Repeats(w, passes, i) >= m <==> SameLast(w, passes, i, m)
    decreases m
  {
    if m > 1 {
      if i == 0 {
        assert Repeats(w, passes, i) == 1;
      } else {
        RepeatsExactly(w, passes, i - 1, m - 1);
        assert passes[i - 1] == passes[i - 1] && !Clash(passes[i - 1].intents);
      }
    }
  }

  /** The turn goes on after a pass exactly if something was carried out, the ceiling is not
      reached, the signature exists, and it is not the fourth in a row. */
  lemma GoesOnExactlyIf(w: World, req: Request, passes: seq<Pass>, i: nat)
    requires IsTurn(w, req, passes) && i < |passes|
    ensures i + 1 < |passes| <==>
            && SomethingRan(passes[i].proposals) && i + 1 < w.maxPasses && !Clash(passes[i].intents)
            && !SameLast(w, passes, i, 4)
  {
    assert GoodPass(w, req, passes, i);
    ActedIfSomethingRan(passes[i].proposals);
    forall k | 0 <= k < i
      ensures !Clash(passes[k].intents)
    {
      assert Continues(w, passes, k);
    }
    if !Clash(passes[i].intents) {
      RepeatsExactly(w, passes, i, 4);
    }
    assert Continues(w, passes, i) <==> i + 1 < |passes|;
  }

  // ----- What the voice is told -----

  /** One message for every proposal that was carried out. */
  function Told(w: World, ps: seq<Proposal>): seq<Msg> {
    if ps == [] then []
    else
      var p := ps[|ps| - 1];
      var text := if |p.output| <= w.fruitChars then p.output else p.output[..w.fruitChars];
      Told(w, ps[..|ps| - 1]) +
      match p.status
      case Executed => [Msg("user", "[tool " + p.tool + " \U{2014} executed]\n" + text)]
      case Failed => [Msg("user", "[tool " + p.tool + " \U{2014} failed]\n" + text)]
      case _ => []
  }

  lemma {:induction false} ToldConcat(w: World, a: seq<Proposal>, b: seq<Proposal>)
    ensures Told(w, a + b) == Told(w, a) + Told(w, b)
    decreases |b|
  {
    if b == [] {
      assert a + b == a;
    } else {
      assert (a + b)[..|a + b| - 1] == a + b[..|b| - 1];
      ToldConcat(w, a, b[..|b| - 1]);
    }
  }

  lemma ToldOne(w: World, p: Proposal)
    ensures Told(w, [p]) == if DidAct(p) then [FruitMessage(w, p)] else []
  {
    assert [p][..0] == [];
    var start, text := "[tool " + p.tool, Clip(p.output, w.fruitChars);
    assert start + " \U{2014} " + "executed" + "]\n" + text == start + " \U{2014} executed]\n" + text;
    assert start + " \U{2014} " + "failed" + "]\n" + text == start + " \U{2014} failed]\n" + text;
  }

  lemma {:induction false} FruitIsTold(w: World, ps: seq<Proposal>)
    ensures FruitMessages(w, Acted(ps)) == Told(w, ps)
  {
    if ps == [] {
      assert Acted(ps) == [];
    } else {
      FruitIsTold(w, ps[1..]);
      ToldOne(w, ps[0]);
      ToldConcat(w, [ps[0]], ps[1..]);
      assert ps == [ps[0]] + ps[1..];
      FirstMessage(w, ps);
    }
  }

  lemma FirstMessage(w: World, ps: seq<Proposal>)
    requires ps != []
    ensures FruitMessages(w, Acted(ps)) ==
            (if DidAct(ps[0]) then [FruitMessage(w, ps[0])] else []) + FruitMessages(w, Acted(ps[1..]))
  {
    if DidAct(ps[0]) {
      assert Acted(ps)[1..] == Acted(ps[1..]);
    } else {
      assert Acted(ps) == Acted(ps[1..]);
    }
  }

  /** Trimming never takes away a tail that fits, nor the last message. */
  lemma TrimKeepsTail(ms: seq<Msg>, tail: seq<Msg>, budget: nat)
    requires tail != []
    ensures var kept := Trim(ms + tail, budget);
            && kept != [] && kept[|kept| - 1] == tail[|tail| - 1]
            && (Size(tail) <= budget ==> |tail| <= |kept| && kept[|kept| - |tail|..] == tail)
  {
    var all := ms + tail;
    var d := Dropped(all, budget);
    TrimIsLongestSuffix(all, budget);
    assert all[|ms|..] == tail;
    if Size(tail) <= budget {
      assert d <= |ms|;
    }
  }

  lemma GivenAfter(w: World, req: Request, before: seq<Pass>, p: Pass, news: seq<Msg>)
    requires news == [Msg("assistant", p.response)] + Told(w, p.proposals)
    ensures Given(w, req, before + [p]) ==
            Trim(Window(w, req), PRIOR_CHARS) + [Msg("user", req.message)]
            + Trim(ExchangeOf(w, before) + news, CHAIN_CHARS)
  {
    FruitIsTold(w, p.proposals);
    RecordsGrow(w, before, p);
    assert Exchange(w, p) == news;
  }

  lemma EndsWithNews(prior: seq<Msg>, goal: Msg, earlier: seq<Msg>, news: seq<Msg>)
    requires news != []
    ensures var given := prior + [goal] + Trim(earlier + news, CHAIN_CHARS);
            && goal in given && given[|given| - 1] == news[|news| - 1]
            && (Size(news) <= CHAIN_CHARS ==> |news| <= |given| && given[|given| - |news|..] == news)
  {
    var chain := Trim(earlier + news, CHAIN_CHARS);
    TrimKeepsTail(earlier, news, CHAIN_CHARS);
    AfterPrefix(prior, goal, chain, if Size(news) <= CHAIN_CHARS then |news| else 0);
  }

  lemma AfterPrefix(prior: seq<Msg>, goal: Msg, chain: seq<Msg>, n: nat)
    requires chain != [] && n <= |chain|
    ensures var given := prior + [goal] + chain;
            && goal in given && given[|given| - 1] == chain[|chain| - 1]
            && given[|given| - n..] == chain[|chain| - n..]
  {
    var given := prior + [goal] + chain;
    assert given[|prior|] == goal;
  }

  /** After a pass the voice is given the user's message, then, as far as they fit 9000
      characters, her own last words and a message for everything they brought about; the
      last of these always. */
  lemma VoiceIsTold(w: World, req: Request, before: seq<Pass>, p: Pass)
    ensures var given := Given(w, req, before + [p]);
            var news := [Msg("assistant", p.response)] + Told(w, p.proposals);
            && Msg("user", req.message) in given
            && given[|given| - 1] == news[|news| - 1]
            && (Size(news) <= 9000 ==> |news| <= |given| && given[|given| - |news|..] == news)
  {
    var news := [Msg("assistant", p.response)] + Told(w, p.proposals);
    GivenAfter(w, req, before, p, news);
    EndsWithNews(Trim(Window(w, req), PRIOR_CHARS), Msg("user", req.message), ExchangeOf(w, before), news);
  }

  /** Before the first pass the voice is given the trimmed history and then the user's message. */
  lemma VoiceIsAsked(w: World, req: Request)
    requires w.historyChars >= 1
    ensures Given(w, req, []) == Trim(req.history, w.historyChars) + [Msg("user", req.message)]
  {
  }

  lemma {:induction false} WithheldNeverActs(ps: seq<Proposal>)
    requires forall i :: 0 <= i < |ps| ==> ps[i].status.Withheld?
    ensures Acted(ps) == []
  {
    if ps != [] {
      WithheldNeverActs(ps[1..]);
    }
  }

  /** Where a pass's proposals come from: nothing was asked, the response was outside the polytope
      and each intent is withheld, the tools answered, or there is no ledger. */
  lemma ProposalsExactly(w: World, req: Request, passes: seq<Pass>, i: nat)
    requires IsTurn(w, req, passes) && i < |passes|
    ensures var p := passes[i];
            var intents := w.parse(p.response);
            && (intents == [] ==> p.proposals == [])
            && (w.weigh(i, p.response).zone.Violation? ==>
                  |p.proposals| == |intents| && forall k :: 0 <= k < |intents| ==>
                    p.proposals[k] == Proposal(intents[k].tool, Withheld, ""))
            && (intents != [] && !w.weigh(i, p.response).zone.Violation? ==>
                  p.proposals == if w.storeReady then w.offer(i, intents) else [])
  {
    assert GoodPass(w, req, passes, i);
  }

  /** A response outside the polytope acts on nothing and ends the turn. */
  lemma ViolationEndsTurn(w: World, req: Request, passes: seq<Pass>, i: nat)
    requires IsTurn(w, req, passes) && i < |passes| && passes[i].verdict.zone.Violation?
    ensures Acted(passes[i].proposals) == [] && i == |passes| - 1
  {
    assert GoodPass(w, req, passes, i);
    WithheldNeverActs(passes[i].proposals);
    assert !Continues(w, passes, i);
  }

  /** The world determines the turn: there is only one. */
  lemma TurnIsUnique(w: World, req: Request, a: seq<Pass>, b: seq<Pass>)
    requires IsTurn(w, req, a) && IsTurn(w, req, b)
    ensures a == b
  {
    if |a| <= |b| {
      TurnIsPrefix(w, req, a, b);
    } else {
      TurnIsPrefix(w, req, b, a);
    }
  }

  lemma TurnIsPrefix(w: World, req: Request, a: seq<Pass>, b: seq<Pass>)
    requires IsTurn(w, req, a) && IsTurn(w, req, b) && |a| <= |b|
    ensures a == b
  {
    var n := |a|;
    SamePasses(w, req, a, b, n);
    assert a == b[..n];
    SameRepeats(w, a, b, n - 1);
    assert Continues(w, b, n - 1) == Continues(w, a, n - 1);
    assert |b| == n;
  }

  ghost predicate AllGood(w: World, req: Request, passes: seq<Pass>) {
    forall i :: 0 <= i < |passes| ==> GoodPass(w, req, passes, i)
  }

  lemma {:induction false} SamePasses(w: World, req: Request, a: seq<Pass>, b: seq<Pass>, n: nat)
    requires AllGood(w, req, a) && AllGood(w, req, b) && n <= |a| && n <= |b|
    ensures a[..n] == b[..n]
  {
    if n > 0 {
      SamePasses(w, req, a, b, n - 1);
      assert GoodPass(w, req, a, n - 1) && GoodPass(w, req, b, n - 1);
      SamePass(w, req, a, b, n - 1);
      OneMoreSame(a, b, n - 1);
    }
  }

  lemma OneMoreSame(a: seq<Pass>, b: seq<Pass>, n: nat)
    requires n < |a| && n < |b| && a[..n] == b[..n] && a[n] == b[n]
    ensures a[..n + 1] == b[..n + 1]
  {
  }

  lemma SamePass(w: World, req: Request, a: seq<Pass>, b: seq<Pass>, i: nat)
    requires i < |a| && i < |b| && a[..i] == b[..i]
    requires GoodPass(w, req, a, i) && GoodPass(w, req, b, i)
    ensures a[i] == b[i]
  {
  }

  lemma {:induction false} SameRepeats(w: World, a: seq<Pass>, b: seq<Pass>, i: nat)
    requires i < |a| && i < |b| && a[..i + 1] == b[..i + 1]
    ensures Repeats(w, a, i) == Repeats(w, b, i) && a[i] == b[i]
  {
    assert a[i] == a[..i + 1][i] && b[i] == b[..i + 1][i];
    if i > 0 {
      assert a[..i] == a[..i + 1][..i] && b[..i] == b[..i + 1][..i];
      SameRepeats(w, a, b, i - 1);
    }
  }

  // ----- What the session remembers -----

  /** Her words among the entries. */
  function Words(es: seq<Entry>): seq<string> {
    if es == [] then [] else (if es[0].LinaSaid? then [es[0].text] else []) + Words(es[1..])
  }

  /** The tool results among the entries. */
  function Results(es: seq<Entry>): seq<Entry> {
    if es == [] then [] else (if es[0].Fruit? then [es[0]] else []) + Results(es[1..])
  }

  function Responses(passes: seq<Pass>): seq<string> {
    seq(|passes|, i requires 0 <= i < |passes| => passes[i].response)
  }

  /** One tool result for every proposal that was carried out, well or badly. */
  function ResultsOf(w: World, ps: seq<Proposal>): seq<Entry> {
    if ps == [] then []
    else
      var p := ps[|ps| - 1];
      ResultsOf(w, ps[..|ps| - 1]) +
      match p.status
      case Executed | Failed =>
        [Fruit(p.tool, p.status, if |p.output| <= w.fruitChars then p.output else p.output[..w.fruitChars])]
      case _ => []
  }

  lemma {:induction false} ResultsOfConcat(w: World, a: seq<Proposal>, b: seq<Proposal>)
    ensures ResultsOf(w, a + b) == ResultsOf(w, a) + ResultsOf(w, b)
    decreases |b|
  {
    if b == [] {
      assert a + b == a;
    } else {
      assert (a + b)[..|a + b| - 1] == a + b[..|b| - 1];
      ResultsOfConcat(w, a, b[..|b| - 1]);
    }
  }

  lemma {:induction false} FruitsAreResults(w: World, ps: seq<Proposal>)
    ensures Fruits(w, Acted(ps)) == ResultsOf(w, ps)
  {
    if ps == [] {
      assert Acted(ps) == [];
    } else {
      FruitsAreResults(w, ps[1..]);
      ResultsOfConcat(w, [ps[0]], ps[1..]);
      assert ps == [ps[0]] + ps[1..];
      assert [ps[0]][..0] == [];
      FirstFruit(w, ps);
    }
  }

  lemma FirstFruit(w: World, ps: seq<Proposal>)
    requires ps != []
    ensures Fruits(w, Acted(ps)) ==
            (if DidAct(ps[0]) then [Fruit(ps[0].tool, ps[0].status, Clip(ps[0].output, w.fruitChars))] else [])
            + Fruits(w, Acted(ps[1..]))
  {
    if DidAct(ps[0]) {
      assert Acted(ps)[1..] == Acted(ps[1..]);
    } else {
      assert Acted(ps) == Acted(ps[1..]);
    }
  }

  lemma WordsFirst(e: Entry, es: seq<Entry>)
    ensures Words([e] + es) == (if e.LinaSaid? then [e.text] else []) + Words(es)
  {
    assert ([e] + es)[1..] == es;
  }

  lemma {:induction false} WordsConcat(a: seq<Entry>, b: seq<Entry>)
    ensures Words(a + b) == Words(a) + Words(b)
  {
    if a == [] {
      assert a + b == b;
    } else {
      WordsConcat(a[1..], b);
      WordsFirst(a[0], a[1..] + b);
      assert a + b == [a[0]] + (a[1..] + b);
    }
  }

  lemma ResultsFirst(e: Entry, es: seq<Entry>)
    ensures Results([e] + es) == (if e.Fruit? then [e] else []) + Results(es)
  {
    assert ([e] + es)[1..] == es;
  }

  lemma {:induction false} ResultsConcat(a: seq<Entry>, b: seq<Entry>)
    ensures Results(a + b) == Results(a) + Results(b)
  {
    if a == [] {
      assert a + b == b;
    } else {
      ResultsConcat(a[1..], b);
      ResultsFirst(a[0], a[1..] + b);
      assert a + b == [a[0]] + (a[1..] + b);
    }
  }

  lemma FilterConcat(a: seq<Entry>, b: seq<Entry>)
    ensures Words(a + b) == Words(a) + Words(b)
    ensures Results(a + b) == Results(a) + Results(b)
  {
    WordsConcat(a, b);
    ResultsConcat(a, b);
  }

  lemma {:induction false} FilterFruits(w: World, acted: seq<Proposal>)
    ensures Words(Fruits(w, acted)) == [] && Results(Fruits(w, acted)) == Fruits(w, acted)
  {
    if acted != [] {
      FilterFruits(w, acted[1..]);
    }
  }

  lemma FilterPass(w: World, p: Pass)
    ensures Words(PassMemory(w, p)) == [p.response]
    ensures Results(PassMemory(w, p)) == ResultsOf(w, p.proposals)
  {
    FilterFruits(w, Acted(p.proposals));
    FruitsAreResults(w, p.proposals);
    FilterConcat(Fruits(w, Acted(p.proposals)), [LinaSaid(p.response)]);
  }

  lemma {:induction false} FilterMemory(w: World, passes: seq<Pass>)
    ensures Words(MemoryOf(w, passes)) == Responses(passes)
    ensures Results(MemoryOf(w, passes)) == ResultsOf(w, ProposalsOf(passes))
  {
    if passes == [] {
      assert Responses(passes) == [];
    } else {
      var n := |passes| - 1;
      FilterMemory(w, passes[..n]);
      FilterPass(w, passes[n]);
      FilterConcat(MemoryOf(w, passes[..n]), PassMemory(w, passes[n]));
      ResultsOfConcat(w, ProposalsOf(passes[..n]), passes[n].proposals);
      assert Responses(passes) == Responses(passes[..n]) + [passes[n].response];
    }
  }

  /** The foresight note, if there is one. */
  function Note(req: Request): seq<Entry> {
    if req.foresight == "" then []
    else [Foresight(if |req.foresight| <= 500 then req.foresight else req.foresight[..500])]
  }

  lemma FilterEnding(w: World, req: Request, last: Pass, crashed: bool)
    ensures Words(Ending(w, req, last, crashed)) == if crashed then [] else [last.response]
    ensures Results(Ending(w, req, last, crashed)) == ResultsOf(w, last.proposals)
  {
    FilterFruits(w, Acted(last.proposals));
    FruitsAreResults(w, last.proposals);
    FilterConcat(Note(req), [LinaSaid(last.response)]);
    FilterConcat(Fruits(w, Acted(last.proposals)), Note(req) + [LinaSaid(last.response)]);
  }

  lemma FilterOpening(w: World, req: Request, earlier: seq<Pass>)
    ensures var opening := [UserSaid(req.message)] + MemoryOf(w, earlier);
            && Words(opening) == Responses(earlier)
            && Results(opening) == ResultsOf(w, ProposalsOf(earlier))
  {
    FilterMemory(w, earlier);
    FilterConcat([UserSaid(req.message)], MemoryOf(w, earlier));
  }

  lemma FilterTurn(w: World, req: Request, passes: seq<Pass>)
    requires passes != []
    ensures var n, memory := |passes| - 1, TurnMemory(w, req, passes);
            var crashed := Crashes(w, passes, n);
            && Words(memory) == Responses(passes[..n]) + (if crashed then [] else [passes[n].response])
            && Results(memory) == ResultsOf(w, ProposalsOf(passes[..n])) + ResultsOf(w, passes[n].proposals)
  {
    var n := |passes| - 1;
    var crashed := Crashes(w, passes, n);
    FilterOpening(w, req, passes[..n]);
    FilterEnding(w, req, passes[n], crashed);
    FilterConcat([UserSaid(req.message)] + MemoryOf(w, passes[..n]), Ending(w, req, passes[n], crashed));
  }

  lemma ResponsesLast(passes: seq<Pass>)
    requires passes != []
    ensures Responses(passes) == Responses(passes[..|passes| - 1]) + [passes[|passes| - 1].response]
  {
  }

  lemma ResultsLast(w: World, passes: seq<Pass>)
    requires passes != []
    ensures var n := |passes| - 1;
            ResultsOf(w, ProposalsOf(passes)) ==
            ResultsOf(w, ProposalsOf(passes[..n])) + ResultsOf(w, passes[n].proposals)
  {
    ResultsOfConcat(w, ProposalsOf(passes[..|passes| - 1]), passes[|passes| - 1].proposals);
  }

  /** Working memory gains exactly one tool result for every proposal that was carried out, in
      order, and her words pass by pass, in order and once each; only the words of a pass that
      crashes are lost. */
  lemma MemoryRecordsTurn(w: World, req: Request, passes: seq<Pass>)
    requires passes != []
    ensures var memory := TurnMemory(w, req, passes);
            var crashed := Crashes(w, passes, |passes| - 1);
            && Words(memory) == (if crashed then Responses(passes[..|passes| - 1]) else Responses(passes))
            && Results(memory) == ResultsOf(w, ProposalsOf(passes))
  {
    FilterTurn(w, req, passes);
    ResponsesLast(passes);
    ResultsLast(w, passes);
  }
}
