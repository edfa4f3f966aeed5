/**
 Season advancement raced by concurrent requests: read the season, decide, then
 lock the identity row, check again and write.
 */
module Seasons {
  import opened Wrappers

  type User = string
  type Pid = nat

  datatype Season = Spring | Summer | Fall | Winter

  const YEAR: seq<Season> := [Spring, Summer, Fall, Winter]

  function Rank(s: Season): (r: nat)
    ensures r < 4 && YEAR[r] == s
  {
    match s
    case Spring => 0
    case Summer => 1
    case Fall => 2
    case Winter => 3
  }

  /** The season that `season` advances to; Winter has no requirements entry. */
  function NextSeason(season: Season): Option<Season> {
    match season
    case Spring => Some(Summer)
    case Summer => Some(Fall)
    case Fall => Some(Winter)
    case Winter => None
  }

  datatype Change = Change(from: Season, to: Season)
  datatype Identity = Identity(season: Season, changes: seq<Change>)
  datatype Constraint = Constraint(user: User, season: Season, current: bool)
  datatype Event = Event(user: User, season: Season, advance: bool)

  datatype Reply = Advanced(season: Season) | AlreadyAdvanced(season: Season) | NotAdvanced(season: Season) | NoSuchUser

  /** Where a request stands: it has read `season`; it has decided to advance to `next`; it has answered. */
  datatype Request =
    | Read(user: User, season: Season)
    | Decided(user: User, season: Season, next: Season)
    | Answered(reply: Reply)

  datatype State = State(
    identities: map<User, Identity>, constraints: seq<Constraint>, events: seq<Event>, requests: map<Pid, Request>)

  datatype Step =
    | Initialize(user: User)
    | Start(pid: Pid, user: User)
    | Judge(pid: Pid, ready: bool)
    | Commit(pid: Pid)
    | Abandon(pid: Pid)

  const NOBODY := State(map[], [], [], map[])

  function Retire(c: Constraint, user: User): Constraint {
    if c.user == user then c.(current := false) else c
  }

  function Retired(cs: seq<Constraint>, user: User): (r: seq<Constraint>)
    ensures |r| == |cs|
    ensures forall i :: 0 <= i < |cs| ==>
              r[i] == if cs[i].user == user then cs[i].(current := false) else cs[i]
  {
    seq(|cs|, i requires 0 <= i < |cs| => Retire(cs[i], user))
  }

  /** The transaction, one step under the row lock. */
  function Transact(s: State, pid: Pid, user: User, seen: Season, next: Season): State {
    if user !in s.identities then s.(requests := s.requests[pid := Answered(NoSuchUser)])
    else
      var identity := s.identities[user];
      if identity.season != seen then s.(requests := s.requests[pid := Answered(AlreadyAdvanced(identity.season))])
      else
        State(s.identities[user := Identity(next, identity.changes + [Change(seen, next)])],
              Retired(s.constraints, user) + [Constraint(user, next, true)],
              s.events + [Event(user, next, true)],
              s.requests[pid := Answered(Advanced(next))])
  }

  /** The tables the transaction updates, and its four statements in order. */
  class SeasonStore {
    var identities: map<User, Identity>
    var constraints: seq<Constraint>
    var events: seq<Event>

    method Advance(user: User, seen: Season, next: Season) returns (reply: Reply)
      modifies this
      ensures forall pid ::
                Transact(State(old(identities), old(constraints), old(events), map[]), pid, user, seen, next)
                == State(identities, constraints, events, map[pid := Answered(reply)])
    {
      if user !in identities {
        return NoSuchUser;
      }
      if identities[user].season != seen {
        return AlreadyAdvanced(identities[user].season);
      }
      constraints := Retired(constraints, user);
      constraints := constraints + [Constraint(user, next, true)];
      identities := identities[user := Identity(next, identities[user].changes + [Change(seen, next)])];
      events := events + [Event(user, next, true)];
      return Advanced(next);
    }
  }

  function Do(s: State, a: Step): State {
    match a
    case Initialize(user) =>
      if user in s.identities then s
      else State(s.identities[user := Identity(Spring, [])], s.constraints + [Constraint(user, Spring, true)],
                 s.events + [Event(user, Spring, false)], s.requests)
    case Start(pid, user) =>
      if pid in s.requests then s
      else
        var r := if user !in s.identities then Answered(NoSuchUser)
                 else if s.identities[user].season.Winter? then Answered(NotAdvanced(Winter))
                 else Read(user, s.identities[user].season);
        s.(requests := s.requests[pid := r])
    case Judge(pid, ready) =>
      if pid !in s.requests || !s.requests[pid].Read? then s
      else
        var Read(user, season) := s.requests[pid];
        var r := if ready && NextSeason(season).Some? then Decided(user, season, NextSeason(season).value)
                 else Answered(NotAdvanced(season));
        s.(requests := s.requests[pid := r])
    case Commit(pid) =>
      if pid !in s.requests || !s.requests[pid].Decided? then s
      else Transact(s, pid, s.requests[pid].user, s.requests[pid].season, s.requests[pid].next)
    case Abandon(pid) =>
      if pid !in s.requests || s.requests[pid].Answered? then s else s.(requests := s.requests - {pid})
  }

  function Run(s: State, steps: seq<Step>): State
    decreases |steps|
  {
    if steps == [] then s else Run(Do(s, steps[0]), steps[1..])
  }

  // ----- What the tables hold -----

  function EventsOf(es: seq<Event>, user: User): seq<Season> {
    if es == [] then []
    else EventsOf(es[..|es| - 1], user) + if es[|es| - 1].user == user then [es[|es| - 1].season] else []
  }

  function ConstraintsOf(cs: seq<Constraint>, user: User): seq<Constraint> {
    if cs == [] then []
    else ConstraintsOf(cs[..|cs| - 1], user) + if cs[|cs| - 1].user == user then [cs[|cs| - 1]] else []
  }

  /** The constraint rows of a user in season number `n`: one per season lived, only the
      last one current. */
  function History(user: User, n: nat): seq<Constraint>
    requires n < 4
  {
    seq(n + 1, i requires 0 <= i < n + 1 => Constraint(user, YEAR[i], i == n))
  }

  function ChangesUpTo(n: nat): seq<Change>
    requires n < 4
  {
    seq(n, i requires 0 <= i < n => Change(YEAR[i], YEAR[i + 1]))
  }

  ghost predicate UserOk(s: State, user: User)
    requires user in s.identities
  {
    var n := Rank(s.identities[user].season);
    && s.identities[user].changes == ChangesUpTo(n)
    && ConstraintsOf(s.constraints, user) == History(user, n)
    && EventsOf(s.events, user) == YEAR[..n + 1]
  }

  /** A known user's tables are in order; an unknown one has no rows. */
  ghost predicate TablesOk(s: State, user: User) {
    if user in s.identities then UserOk(s, user)
    else ConstraintsOf(s.constraints, user) == [] && EventsOf(s.events, user) == []
  }

  ghost predicate RequestsOk(s: State) {
    && (forall p :: p in s.requests && (s.requests[p].Read? || s.requests[p].Decided?) ==>
          s.requests[p].user in s.identities
          && Rank(s.requests[p].season) <= Rank(s.identities[s.requests[p].user].season))
    && (forall p :: p in s.requests && s.requests[p].Decided? ==>
          NextSeason(s.requests[p].season) == Some(s.requests[p].next))
  }

  ghost predicate Inv(s: State) {
    (forall user :: TablesOk(s, user)) && RequestsOk(s)
  }

  lemma EventsAppend(es: seq<Event>, e: Event, user: User)
    ensures EventsOf(es + [e], user) == EventsOf(es, user) + if e.user == user then [e.season] else []
  {
  }

  lemma ConstraintsAppend(cs: seq<Constraint>, c: Constraint, user: User)
    ensures ConstraintsOf(cs + [c], user) == ConstraintsOf(cs, user) + if c.user == user then [c] else []
  {
  }

  lemma RetiredAppend(cs: seq<Constraint>, c: Constraint, user: User)
    ensures Retired(cs + [c], user) == Retired(cs, user) + [Retire(c, user)]
  {
  }

  lemma {:induction false} RetiredOf(cs: seq<Constraint>, retired: User, user: User)
    ensures ConstraintsOf(Retired(cs, retired), user) ==
            if retired == user then Retired(ConstraintsOf(cs, user), user) else ConstraintsOf(cs, user)
  {
    if cs == [] {
      assert Retired(cs, retired) == [];
    } else {
      var init, last := cs[..|cs| - 1], cs[|cs| - 1];
      assert cs == init + [last];
      RetiredOf(init, retired, user);
      RetiredAppend(init, last, retired);
      ConstraintsAppend(init, last, user);
      ConstraintsAppend(Retired(init, retired), Retire(last, retired), user);
      if retired == user && last.user == user {
        RetiredAppend(ConstraintsOf(init, user), last, user);
      } else if retired == user {
        assert ConstraintsOf(cs, user) == ConstraintsOf(init, user);
      }
    }
  }

  /** Nothing that concerns `u` differs. */
  ghost predicate SameTables(s: State, t: State, u: User) {
    && (u in s.identities <==> u in t.identities)
    && (u in s.identities ==> s.identities[u] == t.identities[u])
    && ConstraintsOf(s.constraints, u) == ConstraintsOf(t.constraints, u)
    && EventsOf(s.events, u) == EventsOf(t.events, u)
  }

  lemma SameTablesOk(s: State, t: State, u: User)
    requires TablesOk(s, u) && SameTables(s, t, u)
    ensures TablesOk(t, u)
  {
  }

  lemma FirstYear(user: User)
    ensures History(user, 0) == [Constraint(user, Spring, true)] && ChangesUpTo(0) == [] && YEAR[..1] == [Spring]
  {
  }

  lemma InitializeTables(s: State, user: User, u: User)
    requires TablesOk(s, u)
    ensures TablesOk(Do(s, Initialize(user)), u)
  {
    if user !in s.identities {
      var t := Do(s, Initialize(user));
      ConstraintsAppend(s.constraints, Constraint(user, Spring, true), u);
      EventsAppend(s.events, Event(user, Spring, false), u);
      if u == user {
        FirstYear(u);
        assert UserOk(t, u);
      } else {
        SameTablesOk(s, t, u);
      }
    }
  }

  /** The tables after an advance, for every user. */
  lemma AdvanceTables(s: State, user: User, next: Season, u: User)
    ensures ConstraintsOf(Retired(s.constraints, user) + [Constraint(user, next, true)], u) ==
            if u == user then Retired(ConstraintsOf(s.constraints, u), u) + [Constraint(user, next, true)]
            else ConstraintsOf(s.constraints, u)
    ensures EventsOf(s.events + [Event(user, next, true)], u) ==
            EventsOf(s.events, u) + if u == user then [next] else []
  {
    RetiredOf(s.constraints, user, u);
    ConstraintsAppend(Retired(s.constraints, user), Constraint(user, next, true), u);
    EventsAppend(s.events, Event(user, next, true), u);
  }

  lemma HistoryGrows(user: User, n: nat)
    requires n < 3
    ensures Retired(History(user, n), user) + [Constraint(user, YEAR[n + 1], true)] == History(user, n + 1)
    ensures ChangesUpTo(n) + [Change(YEAR[n], YEAR[n + 1])] == ChangesUpTo(n + 1)
    ensures YEAR[..n + 1] + [YEAR[n + 1]] == YEAR[..n + 2]
  {
  }

  lemma OwnTables(s: State, pid: Pid, user: User, seen: Season, next: Season)
    requires user in s.identities && s.identities[user].season == seen && UserOk(s, user)
    requires NextSeason(seen) == Some(next)
    ensures TablesOk(Transact(s, pid, user, seen, next), user)
  {
    var n := Rank(seen);
    assert next == YEAR[n + 1] && Rank(next) == n + 1;
    AdvanceTables(s, user, next, user);
    HistoryGrows(user, n);
  }

  lemma AdvanceLeavesOthers(s: State, pid: Pid, user: User, seen: Season, next: Season, u: User)
    requires u != user
    ensures SameTables(s, Transact(s, pid, user, seen, next), u)
  {
    AdvanceTables(s, user, next, u);
  }

  lemma OtherTables(s: State, pid: Pid, user: User, seen: Season, next: Season, u: User)
    requires u != user && TablesOk(s, u)
    ensures TablesOk(Transact(s, pid, user, seen, next), u)
  {
    AdvanceLeavesOthers(s, pid, user, seen, next, u);
    SameTablesOk(s, Transact(s, pid, user, seen, next), u);
  }

  lemma CommitTables(s: State, pid: Pid, u: User)
    requires TablesOk(s, u) && RequestsOk(s)
    ensures TablesOk(Do(s, Commit(pid)), u)
  {
    if pid in s.requests && s.requests[pid].Decided? {
      var Decided(user, seen, next) := s.requests[pid];
      if u != user {
        OtherTables(s, pid, user, seen, next, u);
      } else if s.identities[user].season == seen {
        OwnTables(s, pid, user, seen, next);
      }
    }
  }

  lemma StepTables(s: State, a: Step, u: User)
    requires TablesOk(s, u) && RequestsOk(s)
    ensures TablesOk(Do(s, a), u)
  {
    match a {
      case Initialize(user) => InitializeTables(s, user, u);
      case Commit(pid) => CommitTables(s, pid, u);
      case _ =>
    }
  }

  lemma NeverBack(s: State, a: Step, user: User)
    requires RequestsOk(s) && user in s.identities
    ensures user in Do(s, a).identities
    ensures Rank(s.identities[user].season) <= Rank(Do(s, a).identities[user].season)
  {
  }

  lemma StepRequest(s: State, a: Step, p: Pid)
    requires RequestsOk(s)
    requires p in Do(s, a).requests && (Do(s, a).requests[p].Read? || Do(s, a).requests[p].Decided?)
    ensures var (t, r) := (Do(s, a), Do(s, a).requests[p]);
            r.user in t.identities && Rank(r.season) <= Rank(t.identities[r.user].season)
  {
    var r := Do(s, a).requests[p];
    if !(a.Start? && a.pid == p) {
      assert p in s.requests && s.requests[p].user == r.user && s.requests[p].season == r.season;
      NeverBack(s, a, r.user);
    }
  }

  lemma StepRequests(s: State, a: Step)
    requires RequestsOk(s)
    ensures RequestsOk(Do(s, a))
  {
    var t := Do(s, a);
    forall p | p in t.requests && (t.requests[p].Read? || t.requests[p].Decided?)
      ensures t.requests[p].user in t.identities
      ensures Rank(t.requests[p].season) <= Rank(t.identities[t.requests[p].user].season)
    {
      StepRequest(s, a, p);
    }
  }

  lemma StepInv(s: State, a: Step)
    requires Inv(s)
    ensures Inv(Do(s, a))
  {
    StepRequests(s, a);
    forall u: User
      ensures TablesOk(Do(s, a), u)
    {
      StepTables(s, a, u);
    }
  }

  lemma {:induction false} RunInv(s: State, steps: seq<Step>)
    requires Inv(s)
    ensures Inv(Run(s, steps))
    decreases |steps|
  {
    if steps != [] {
      StepInv(s, steps[0]);
      RunInv(Do(s, steps[0]), steps[1..]);
    }
  }

  /** However requests race: each user's constraint rows are one per season lived with only
      the last current, and it is the identity's season; the transition log and the audit
      trail run through the seasons in order, so no season is left twice and there are never
      more than three advances. */
  lemma AdvancesNeverRace(steps: seq<Step>, user: User)
    requires user in Run(NOBODY, steps).identities
    ensures var t := Run(NOBODY, steps);
            var n := Rank(t.identities[user].season);
            && ConstraintsOf(t.constraints, user) == History(user, n)
            && t.identities[user].changes == ChangesUpTo(n)
            && EventsOf(t.events, user) == YEAR[..n + 1]
  {
    RunInv(NOBODY, steps);
    assert TablesOk(Run(NOBODY, steps), user);
  }

  /** Of the requests that read the same season, one makes the transition; any other that
      commits later is told of a season already further on, and changes nothing. */
  lemma LatecomersChangeNothing(s: State, first: Pid, second: Pid, user: User, season: Season, next: Season,
                                between: seq<Step>)
    requires Inv(s) && first in s.requests && s.requests[first] == Decided(user, season, next)
    requires s.identities[user].season == season
    requires var t := Run(Do(s, Commit(first)), between);
             second in t.requests && t.requests[second] == Decided(user, season, next)
    ensures var t := Run(Do(s, Commit(first)), between);
            var u := Do(t, Commit(second));
            && user in t.identities
            && u.identities == t.identities && u.constraints == t.constraints && u.events == t.events
            && u.requests[second] == Answered(AlreadyAdvanced(t.identities[user].season))
            && Rank(t.identities[user].season) > Rank(season)
  {
    var s1 := Do(s, Commit(first));
    StepInv(s, Commit(first));
    NeverBackRun(s1, between, user);
  }

  lemma {:induction false} NeverBackRun(s: State, steps: seq<Step>, user: User)
    requires Inv(s) && user in s.identities
    ensures user in Run(s, steps).identities
    ensures Rank(s.identities[user].season) <= Rank(Run(s, steps).identities[user].season)
    decreases |steps|
  {
    if steps != [] {
      StepInv(s, steps[0]);
      NeverBack(s, steps[0], user);
      NeverBackRun(Do(s, steps[0]), steps[1..], user);
    }
  }

  /** A schedule is its steps one after the other. */
  lemma {:induction false} RunLast(s: State, steps: seq<Step>, a: Step)
    ensures Run(s, steps + [a]) == Do(Run(s, steps), a)
    decreases |steps|
  {
    if steps == [] {
      assert [] + [a] == [a] && [a][1..] == [];
      assert Run(s, [a]) == Run(Do(s, a), []);
    } else {
      assert (steps + [a])[0] == steps[0] && (steps + [a])[1..] == steps[1..] + [a];
      RunLast(Do(s, steps[0]), steps[1..], a);
    }
  }

  ghost predicate NobodyDecided(s: State, user: User) {
    forall p :: p in s.requests && s.requests[p].Decided? ==> s.requests[p].user != user
  }

  /** Readiness is the only gate: while no request is judged ready, the season stands. */
  lemma {:induction false} UnreadyNeverAdvances(s: State, steps: seq<Step>, user: User)
    requires user in s.identities && NobodyDecided(s, user)
    requires forall i :: 0 <= i < |steps| ==> !(steps[i].Judge? && steps[i].ready)
    ensures user in Run(s, steps).identities && Run(s, steps).identities[user] == s.identities[user]
    decreases |steps|
  {
    if steps != [] {
      UnreadyNeverAdvances(Do(s, steps[0]), steps[1..], user);
    }
  }

  /** Steps of other requests. */
  predicate OfOthers(steps: seq<Step>, pid: Pid) {
    forall i :: 0 <= i < |steps| ==> steps[i].Initialize? || steps[i].pid != pid
  }

  lemma {:induction false} OthersKeepRequest(s: State, steps: seq<Step>, pid: Pid)
    requires OfOthers(steps, pid) && pid in s.requests
    ensures pid in Run(s, steps).requests && Run(s, steps).requests[pid] == s.requests[pid]
    decreases |steps|
  {
    if steps != [] {
      OthersKeepRequest(Do(s, steps[0]), steps[1..], pid);
    }
  }

  lemma NextInYear(season: Season)
    ensures NextSeason(season) == if season.Winter? then None else Some(YEAR[Rank(season) + 1])
  {
  }

  /** What each of a request's three steps answers, by what it finds. */
  lemma StartDecides(s: State, pid: Pid, user: User)
    requires user in s.identities && pid !in s.requests
    ensures var season := s.identities[user].season;
            var request := if season.Winter? then Answered(NotAdvanced(Winter)) else Read(user, season);
            Do(s, Start(pid, user)) == s.(requests := s.requests[pid := request])
  {
  }

  lemma JudgeDecides(s: State, pid: Pid, user: User, season: Season, ready: bool)
    requires pid in s.requests && s.requests[pid] == Read(user, season) && season != Winter
    ensures Do(s, Judge(pid, ready)) ==
            s.(requests := s.requests[pid := if ready then Decided(user, season, YEAR[Rank(season) + 1])
                                             else Answered(NotAdvanced(season))])
  {
    NextInYear(season);
  }

  lemma CommitDecides(s: State, pid: Pid, user: User, season: Season, next: Season)
    requires pid in s.requests && s.requests[pid] == Decided(user, season, next) && user in s.identities
    ensures var (now, t) := (s.identities[user].season, Do(s, Commit(pid)));
            && user in t.identities && pid in t.requests
            && t.identities[user].season == (if now == season then next else now)
            && t.requests[pid] == Answered(if now == season then Advanced(next) else AlreadyAdvanced(now))
  {
  }

  /** A request, whatever others do between its steps, moves the season exactly if it is judged
      ready and the season is still the one it read; then to the next one, and it says so.
      Otherwise its commit leaves the season as it finds it and the answer says why. */
  lemma AdvancesExactlyIf(s: State, pid: Pid, user: User, first: seq<Step>, ready: bool, second: seq<Step>)
    requires Inv(s) && user in s.identities && pid !in s.requests
    requires OfOthers(first, pid) && OfOthers(second, pid)
    ensures var season := s.identities[user].season;
            var judged := Do(Run(Do(s, Start(pid, user)), first), Judge(pid, ready));
            var found := Run(judged, second);
            var after := Do(found, Commit(pid));
            && user in found.identities && user in after.identities && pid in after.requests
            && var now := found.identities[user].season;
            && after.identities[user].season ==
               (if ready && now == season && season != Winter then YEAR[Rank(season) + 1] else now)
            && after.requests[pid] ==
               Answered(if !ready || season == Winter then NotAdvanced(season)
                        else if now == season then Advanced(YEAR[Rank(season) + 1])
                        else AlreadyAdvanced(now))
  {
    var season := s.identities[user].season;
    var started := Do(s, Start(pid, user));
    var read := Run(started, first);
    var judged := Do(read, Judge(pid, ready));
    StartDecides(s, pid, user);
    StepInv(s, Start(pid, user));
    OthersKeepRequest(started, first, pid);
    RunInv(started, first);
    NeverBackRun(started, first, user);
    if season != Winter {
      JudgeDecides(read, pid, user, season, ready);
    }
    StepInv(read, Judge(pid, ready));
    OthersKeepRequest(judged, second, pid);
    NeverBackRun(judged, second, user);
    if season != Winter && ready {
      CommitDecides(Run(judged, second), pid, user, season, YEAR[Rank(season) + 1]);
    }
  }

  /** A request that is given up leaves no trace but its absence. */
  lemma AbandonDecides(s: State, pid: Pid)
    requires pid in s.requests && !s.requests[pid].Answered?
    ensures var t := Do(s, Abandon(pid));
            && t.identities == s.identities && t.constraints == s.constraints && t.events == s.events
            && pid !in t.requests && forall p :: p != pid ==>
                 (p in t.requests <==> p in s.requests) && (p in t.requests ==> t.requests[p] == s.requests[p])
  {
  }

  /** From nothing: a first request that is judged ready makes it summer. */
  lemma FirstAdvance(user: User)
    ensures var s := Run(NOBODY, [Initialize(user), Start(0, user), Judge(0, true), Commit(0)]);
            && user in s.identities && s.identities[user] == Identity(Summer, [Change(Spring, Summer)])
            && s.constraints == [Constraint(user, Spring, false), Constraint(user, Summer, true)]
            && s.events == [Event(user, Spring, false), Event(user, Summer, true)]
  {
    var s1 := Do(NOBODY, Initialize(user));
    var s2 := Do(s1, Start(0, user));
    var s3 := Do(s2, Judge(0, true));
    RunLast(NOBODY, [], Initialize(user));
    RunLast(NOBODY, [Initialize(user)], Start(0, user));
    RunLast(NOBODY, [Initialize(user), Start(0, user)], Judge(0, true));
    RunLast(NOBODY, [Initialize(user), Start(0, user), Judge(0, true)], Commit(0));
    assert [] + [Initialize(user)] == [Initialize(user)];
    assert [Initialize(user)] + [Start(0, user)] == [Initialize(user), Start(0, user)];
    assert [Initialize(user), Start(0, user)] + [Judge(0, true)] ==
           [Initialize(user), Start(0, user), Judge(0, true)];
    assert [Initialize(user), Start(0, user), Judge(0, true)] + [Commit(0)] ==
           [Initialize(user), Start(0, user), Judge(0, true), Commit(0)];
    assert s2.requests[0] == Read(user, Spring) && s3.requests[0] == Decided(user, Spring, Summer);
  }
}
