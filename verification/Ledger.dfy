/**
 The human-in-the-loop action ledger: single-statement updates of action rows,
 and the request handlers that drive them, interleaved statement by statement.
 */
module Ledger {
  import opened Wrappers

  type Id = nat
  type Pid = nat

  datatype Status = Pending | Approved | Executed | Failed | Rejected

  datatype Row = Row(user: string, kind: string, path: string, payload: string, status: Status, output: string)

  type Rows = map<Id, Row>

  const MAX_OUTPUT := 50000

  const KNOWN_TYPES := {
    "file_read", "file_write", "file_list", "file_search",
    "command", "browser", "vision", "tool", "opfs_read", "opfs_write"
  }

  const FILE_TYPES := {"file_read", "file_write", "file_list", "file_search"}

  /** The characters Python's `str.strip` removes. */
  predicate Blank(c: char) {
    || '\U{0009}' <= c <= '\U{000D}' || '\U{001C}' <= c <= '\U{0020}' || c == '\U{0085}' || c == '\U{00A0}'
    || c == '\U{1680}' || '\U{2000}' <= c <= '\U{200A}' || c == '\U{2028}' || c == '\U{2029}'
    || c == '\U{202F}' || c == '\U{205F}' || c == '\U{3000}'
  }

  /** ...by number. */
  lemma BlankNumbers(c: char)
    ensures Blank(c) <==> c as int in {
              9, 10, 11, 12, 13, 28, 29, 30, 31, 32, 133, 160, 5760,
              8192, 8193, 8194, 8195, 8196, 8197, 8198, 8199, 8200, 8201, 8202, 8232, 8233, 8239, 8287, 12288}
  {
  }

  /** Is a proposal well formed?  An empty path stands for a missing one; `contained` is
      whether the path resolves inside the access roots. */
  predicate Acceptable(kind: string, description: string, path: string, contained: bool) {
    && kind in KNOWN_TYPES
    && (exists i :: 0 <= i < |description| && !Blank(description[i]))
    && (kind == "file_read" || kind == "file_write" ==> path != "")
    && (kind in FILE_TYPES && path != "" ==> contained)
  }

  // ----- The statements, each atomic -----

  function ClaimRow(rows: Rows, id: Id): (Rows, Option<Row>) {
    if id in rows && rows[id].status.Pending?
    then var row := rows[id].(status := Approved); (rows[id := row], Some(row))
    else (rows, None)
  }

  /** Guarded by nothing but the id. */
  function FinalizeRow(rows: Rows, id: Id, ok: bool, output: string): Rows {
    if id !in rows then rows
    else
      var kept := if |output| <= MAX_OUTPUT then output else output[..MAX_OUTPUT];
      rows[id := rows[id].(status := if ok then Executed else Failed, output := kept)]
  }

  function RejectRow(rows: Rows, id: Id, user: string): (Rows, Option<Row>) {
    if id in rows && rows[id].status.Pending? && rows[id].user == user
    then var row := rows[id].(status := Rejected); (rows[id := row], Some(row))
    else (rows, None)
  }

  function ModifyRow(rows: Rows, id: Id, payload: string): (Rows, Option<Row>) {
    if id in rows && rows[id].status.Pending?
    then var row := rows[id].(payload := payload); (rows[id := row], Some(row))
    else (rows, None)
  }

  /** Consent given in advance, per action type. */
  predicate GrantAllows(grants: map<string, bool>, kind: string) {
    kind in grants && grants[kind]
  }

  /** What the approving handler answers. */
  datatype Reply = Report(status: Status, output: string) | Conflict | NotFound

  /** Approval of an action whose execution comes back with `ok` and `output`: the row is
      claimed, carried out and finalized; a row already settled is only reported. */
  function ApproveRow(rows: Rows, id: Id, ok: bool, output: string): (Rows, Reply) {
    if id !in rows then (rows, NotFound)
    else
      match rows[id].status
      case Pending =>
        (FinalizeRow(ClaimRow(rows, id).0, id, ok, output), Report(if ok then Executed else Failed, output))
      case Executed | Failed => (rows, Report(rows[id].status, rows[id].output))
      case Rejected => (rows, Conflict)
      case Approved => (rows, NotFound)
  }

  /** Approving again carries nothing out and changes no row.  It also answers as the first
      time, unless that time ran an action with more output than is kept: the first answer
      holds all of it, every later one what the row kept. */
  lemma ApprovingAgain(rows: Rows, id: Id, ok: bool, output: string, again: bool, more: string)
    ensures var (once, first) := ApproveRow(rows, id, ok, output);
            var (twice, second) := ApproveRow(once, id, again, more);
            && twice == once
            && (second == first <==> !(id in rows && rows[id].status.Pending? && |output| > 50000))
  {
  }

  class ActionStore {
    var rows: Rows

    constructor ()
      ensures rows == map[]
    {
      rows := map[];
    }

    /** `id` is the fresh UUID. */
    method Propose(id: Id, user: string, kind: string, description: string, path: string, contained: bool,
                   payload: string)
      returns (r: Option<Row>)
      requires id !in rows
      modifies this
      ensures r.Some? <==> Acceptable(kind, description, path, contained)
      ensures r.Some? ==> r.value == Row(user, kind, path, payload, Pending, "") && rows == old(rows)[id := r.value]
      ensures r.None? ==> rows == old(rows)
    {
      if kind !in KNOWN_TYPES {
        return None;
      }
      if forall i :: 0 <= i < |description| ==> Blank(description[i]) {
        return None;
      }
      if kind in FILE_TYPES {
        if (kind == "file_read" || kind == "file_write") && path == "" {
          return None;
        }
        if path != "" && !contained {
          return None;
        }
      }
      var row := Row(user, kind, path, payload, Pending, "");
      rows := rows[id := row];
      return Some(row);
    }

    method Get(id: Id) returns (r: Option<Row>)
      ensures r == if id in rows then Some(rows[id]) else None
    {
      r := if id in rows then Some(rows[id]) else None;
    }

    method Claim(id: Id) returns (r: Option<Row>)
      modifies this
      ensures (rows, r) == ClaimRow(old(rows), id)
    {
      if id in rows && rows[id].status.Pending? {
        rows := rows[id := rows[id].(status := Approved)];
        return Some(rows[id]);
      }
      return None;
    }

    method Finalize(id: Id, ok: bool, output: string)
      modifies this
      ensures rows == FinalizeRow(old(rows), id, ok, output)
    {
      if id in rows {
        var status := if ok then Executed else Failed;
        var kept := if |output| <= MAX_OUTPUT then output else output[..MAX_OUTPUT];
        rows := rows[id := rows[id].(status := status, output := kept)];
      }
    }

    method Reject(id: Id, user: string) returns (r: Option<Row>)
      modifies this
      ensures (rows, r) == RejectRow(old(rows), id, user)
    {
      if id in rows && rows[id].status.Pending? && rows[id].user == user {
        rows := rows[id := rows[id].(status := Rejected)];
        return Some(rows[id]);
      }
      return None;
    }

    method Modify(id: Id, payload: string) returns (r: Option<Row>)
      modifies this
      ensures (rows, r) == ModifyRow(old(rows), id, payload)
    {
      if id in rows && rows[id].status.Pending? {
        rows := rows[id := rows[id].(payload := payload)];
        return Some(rows[id]);
      }
      return None;
    }

    /** The approving handler, undisturbed; `ok` and `output` are what the execution returns. */
    method Approve(id: Id, ok: bool, output: string) returns (reply: Reply)
      modifies this
      ensures (rows, reply) == ApproveRow(old(rows), id, ok, output)
      ensures reply.NotFound? <==> id !in old(rows) || old(rows)[id].status.Approved?
      ensures reply.Conflict? <==> id in old(rows) && old(rows)[id].status.Rejected?
    {
      var claimed := Claim(id);
      if claimed.None? {
        var existing := Get(id);
        if existing.Some? && (existing.value.status.Executed? || existing.value.status.Failed?) {
          return Report(existing.value.status, existing.value.output);
        }
        if existing.Some? && existing.value.status.Rejected? {
          return Conflict;
        }
        return NotFound;
      }
      Finalize(id, ok, output);
      return Report(if ok then Executed else Failed, output);
    }
  }

  // ----- The handlers, interleaved -----

  /** Where a handler stands between two statements. */
  datatype Task =
    | Proposed(id: Id)
    | Claiming(id: Id)
    | Holding(id: Id, row: Row)
    | Ran(id: Id, ok: bool, output: string)
    | Ended

  datatype Execution = Execution(id: Id, payload: string, pid: Pid)

  /** `log` is what really ran, in order.  `author` and `wrote` are history: which handler
      last set a row's payload, and the payload each such handler wrote. */
  datatype State = State(
    rows: Rows, tasks: map<Pid, Task>, log: seq<Execution>,
    author: map<Id, Pid>, wrote: map<Pid, string>)

  datatype Step =
    | Propose(pid: Pid, id: Id, user: string, kind: string, path: string, payload: string)
    | Consent(pid: Pid, winter: bool, grants: map<string, bool>)
    | Approve(pid: Pid, id: Id)
    | Reject(pid: Pid, id: Id, user: string)
    | Modify(pid: Pid, id: Id, payload: string)
    | Claim(pid: Pid)
    | Execute(pid: Pid, ok: bool, output: string)
    | Finalize(pid: Pid)
    | Fail(pid: Pid)

  const EMPTY := State(map[], map[], [], map[], map[])

  /** One statement of one handler.  A new handler needs an unused process id, a new row an
      unused row id; `Fail` is an exception raised at any point of a handler. */
  function Do(s: State, a: Step): State {
    match a
    case Propose(pid, id, user, kind, path, payload) =>
      if pid in s.tasks || id in s.rows then s
      else State(s.rows[id := Row(user, kind, path, payload, Pending, "")], s.tasks[pid := Proposed(id)], s.log,
                 s.author[id := pid], s.wrote[pid := payload])
    case Consent(pid, winter, grants) =>
      if pid !in s.tasks || !s.tasks[pid].Proposed? || s.tasks[pid].id !in s.rows then s
      else
        var id := s.tasks[pid].id;
        s.(tasks := s.tasks[pid := if winter || GrantAllows(grants, s.rows[id].kind) then Claiming(id) else Ended])
    case Approve(pid, id) =>
      if pid in s.tasks then s else s.(tasks := s.tasks[pid := Claiming(id)])
    case Reject(pid, id, user) =>
      if pid in s.tasks then s
      else s.(rows := RejectRow(s.rows, id, user).0, tasks := s.tasks[pid := Ended])
    case Modify(pid, id, payload) =>
      if pid in s.tasks then s
      else
        var (rows, row) := ModifyRow(s.rows, id, payload);
        if row.None? then s.(tasks := s.tasks[pid := Ended])
        else State(rows, s.tasks[pid := Claiming(id)], s.log, s.author[id := pid], s.wrote[pid := payload])
    case Claim(pid) =>
      if pid !in s.tasks || !s.tasks[pid].Claiming? then s
      else
        var id := s.tasks[pid].id;
        var (rows, row) := ClaimRow(s.rows, id);
        s.(rows := rows, tasks := s.tasks[pid := if row.None? then Ended else Holding(id, row.value)])
    case Execute(pid, ok, output) =>
      if pid !in s.tasks || !s.tasks[pid].Holding? then s
      else
        var Holding(id, row) := s.tasks[pid];
        s.(log := s.log + [Execution(id, row.payload, pid)], tasks := s.tasks[pid := Ran(id, ok, output)])
    case Finalize(pid) =>
      if pid !in s.tasks || !s.tasks[pid].Ran? then s
      else
        var Ran(id, ok, output) := s.tasks[pid];
        s.(rows := FinalizeRow(s.rows, id, ok, output), tasks := s.tasks[pid := Ended])
    case Fail(pid) =>
      if pid !in s.tasks then s else s.(tasks := s.tasks[pid := Ended])
  }

  function Run(s: State, steps: seq<Step>): State
    decreases |steps|
  {
    if steps == [] then s else Run(Do(s, steps[0]), steps[1..])
  }

  /** Does this handler own the action: claimed, and not yet finalized? */
  predicate Owns(s: State, pid: Pid, id: Id) {
    pid in s.tasks && (s.tasks[pid].Holding? || s.tasks[pid].Ran?) && s.tasks[pid].id == id
  }

  function Times(log: seq<Execution>, id: Id): nat {
    if log == [] then 0 else Times(log[..|log| - 1], id) + if log[|log| - 1].id == id then 1 else 0
  }

  lemma TimesAppend(log: seq<Execution>, e: Execution, id: Id)
    ensures Times(log + [e], id) == Times(log, id) + if e.id == id then 1 else 0
  {
  }

  ghost predicate OwnershipOk(s: State) {
    && (forall p, id :: Owns(s, p, id) ==> id in s.rows && s.rows[id].status.Approved?)
    && (forall p, q, id :: Owns(s, p, id) && Owns(s, q, id) ==> p == q)
    && (forall p :: p in s.tasks && s.tasks[p].Holding? ==>
          s.tasks[p].id in s.rows && s.tasks[p].row == s.rows[s.tasks[p].id])
  }

  ghost predicate LogOk(s: State) {
    && (forall id :: id !in s.rows ==> Times(s.log, id) == 0)
    && (forall id :: id in s.rows ==>
          match s.rows[id].status
          case Pending | Rejected => Times(s.log, id) == 0
          case Executed | Failed => Times(s.log, id) == 1
          case Approved => Times(s.log, id) <= 1)
    && (forall p :: p in s.tasks && s.tasks[p].Holding? ==> Times(s.log, s.tasks[p].id) == 0)
    && (forall p :: p in s.tasks && s.tasks[p].Ran? ==> Times(s.log, s.tasks[p].id) == 1)
    && (forall i :: 0 <= i < |s.log| ==>
          s.log[i].id in s.rows && !s.rows[s.log[i].id].status.Pending?
          && s.log[i].payload == s.rows[s.log[i].id].payload)
  }

  ghost predicate AuthorsOk(s: State) {
    && (forall id :: id in s.rows ==>
          id in s.author && s.author[id] in s.wrote && s.rows[id].payload == s.wrote[s.author[id]])
    && (forall p :: p in s.wrote ==> p in s.tasks)
  }

  ghost predicate Inv(s: State) {
    OwnershipOk(s) && LogOk(s) && AuthorsOk(s)
  }

  /** Rows and log untouched, and no handler newly owns anything. */
  lemma TaskOnlyStep(s: State, pid: Pid, task: Task)
    requires Inv(s) && !task.Holding? && !task.Ran?
    ensures Inv(s.(tasks := s.tasks[pid := task]))
  {
    var t := s.(tasks := s.tasks[pid := task]);
    forall p, id | Owns(t, p, id)
      ensures Owns(s, p, id)
    {
    }
  }

  /** A pending row changes hands with no owner and no execution to its name. */
  lemma PendingIsUntouched(s: State, id: Id)
    requires Inv(s) && id in s.rows && s.rows[id].status.Pending?
    ensures forall p :: !Owns(s, p, id)
    ensures Times(s.log, id) == 0
    ensures forall i :: 0 <= i < |s.log| ==> s.log[i].id != id
  {
  }

  lemma ProposeKeepsOwnership(s: State, a: Step)
    requires Inv(s) && a.Propose?
    ensures OwnershipOk(Do(s, a))
  {
    var t := Do(s, a);
    if t != s {
      forall p, id | Owns(t, p, id)
        ensures Owns(s, p, id) && id != a.id
      {
        assert Owns(s, p, id);
      }
    }
  }

  lemma ProposeKeepsLog(s: State, a: Step)
    requires Inv(s) && a.Propose?
    ensures LogOk(Do(s, a)) && AuthorsOk(Do(s, a))
  {
  }

  lemma ProposeStep(s: State, a: Step)
    requires Inv(s) && a.Propose?
    ensures Inv(Do(s, a))
  {
    ProposeKeepsOwnership(s, a);
    ProposeKeepsLog(s, a);
  }

  function Rewritten(s: State, id: Id, pid: Pid, payload: string): State
    requires id in s.rows
  {
    State(s.rows[id := s.rows[id].(payload := payload)], s.tasks, s.log, s.author[id := pid], s.wrote[pid := payload])
  }

  lemma RewriteKeepsOwnership(s: State, id: Id, pid: Pid, payload: string)
    requires Inv(s) && id in s.rows && s.rows[id].status.Pending?
    ensures OwnershipOk(Rewritten(s, id, pid, payload))
  {
    PendingIsUntouched(s, id);
    var t := Rewritten(s, id, pid, payload);
    forall p, i | Owns(t, p, i)
      ensures Owns(s, p, i) && i != id
    {
      assert Owns(s, p, i) && !Owns(s, p, id);
    }
    forall p | p in t.tasks && t.tasks[p].Holding?
      ensures t.tasks[p].id != id
    {
      assert Owns(t, p, t.tasks[p].id);
    }
  }

  lemma RewriteKeepsLog(s: State, id: Id, pid: Pid, payload: string)
    requires Inv(s) && id in s.rows && s.rows[id].status.Pending?
    ensures LogOk(Rewritten(s, id, pid, payload))
  {
  }

  lemma RewriteSetsAuthor(s: State, id: Id, pid: Pid, payload: string)
    requires Inv(s) && id in s.rows && pid in s.tasks && pid !in s.wrote
    ensures AuthorsOk(Rewritten(s, id, pid, payload))
  {
  }

  lemma ModifyStep(s: State, pid: Pid, id: Id, payload: string)
    requires Inv(s)
    ensures Inv(Do(s, Modify(pid, id, payload)))
  {
    if pid !in s.tasks {
      if ModifyRow(s.rows, id, payload).1.None? {
        TaskOnlyStep(s, pid, Ended);
      } else {
        TaskOnlyStep(s, pid, Claiming(id));
        var mid := s.(tasks := s.tasks[pid := Claiming(id)]);
        RewriteKeepsOwnership(mid, id, pid, payload);
        RewriteKeepsLog(mid, id, pid, payload);
        RewriteSetsAuthor(mid, id, pid, payload);
        assert Do(s, Modify(pid, id, payload)) == Rewritten(mid, id, pid, payload);
      }
    }
  }

  lemma RejectKeepsOwnership(s: State, id: Id)
    requires Inv(s) && id in s.rows && s.rows[id].status.Pending?
    ensures OwnershipOk(s.(rows := s.rows[id := s.rows[id].(status := Rejected)]))
  {
    PendingIsUntouched(s, id);
    var t := s.(rows := s.rows[id := s.rows[id].(status := Rejected)]);
    forall p, i | Owns(t, p, i)
      ensures Owns(s, p, i) && i != id
    {
      assert Owns(s, p, i) && !Owns(s, p, id);
    }
    forall p | p in t.tasks && t.tasks[p].Holding?
      ensures t.tasks[p].id != id
    {
      assert Owns(t, p, t.tasks[p].id);
    }
  }

  lemma RejectPending(s: State, id: Id)
    requires Inv(s) && id in s.rows && s.rows[id].status.Pending?
    ensures Inv(s.(rows := s.rows[id := s.rows[id].(status := Rejected)]))
  {
    RejectKeepsOwnership(s, id);
    PendingIsUntouched(s, id);
  }

  lemma RejectStep(s: State, a: Step)
    requires Inv(s) && a.Reject?
    ensures Inv(Do(s, a))
  {
    if a.pid !in s.tasks {
      TaskOnlyStep(s, a.pid, Ended);
      if RejectRow(s.rows, a.id, a.user).1.Some? {
        RejectPending(s.(tasks := s.tasks[a.pid := Ended]), a.id);
      }
    }
  }

  lemma ClaimStep(s: State, a: Step)
    requires Inv(s) && a.Claim?
    ensures Inv(Do(s, a))
  {
    if a.pid in s.tasks && s.tasks[a.pid].Claiming? {
      var id := s.tasks[a.pid].id;
      if ClaimRow(s.rows, id).1.None? {
        TaskOnlyStep(s, a.pid, Ended);
      } else {
        PendingIsUntouched(s, id);
        var t := Do(s, a);
        forall p, i | Owns(t, p, i)
          ensures if p == a.pid then i == id else Owns(s, p, i) && i != id
        {
          if p != a.pid {
            assert Owns(s, p, i) && !Owns(s, p, id);
          }
        }
        forall p | p in t.tasks && t.tasks[p].Holding? && p != a.pid
          ensures t.tasks[p].id != id
        {
          assert Owns(t, p, t.tasks[p].id);
        }
      }
    }
  }

  lemma ExecuteStep(s: State, a: Step)
    requires Inv(s) && a.Execute?
    ensures Inv(Do(s, a))
  {
    if a.pid in s.tasks && s.tasks[a.pid].Holding? {
      var t := Do(s, a);
      var e := Execution(s.tasks[a.pid].id, s.tasks[a.pid].row.payload, a.pid);
      assert Owns(s, a.pid, e.id);
      forall id
        ensures Times(t.log, id) == Times(s.log, id) + if e.id == id then 1 else 0
      {
        TimesAppend(s.log, e, id);
      }
      forall p, id | Owns(t, p, id)
        ensures Owns(s, p, id) && (p != a.pid ==> id != e.id)
      {
        assert Owns(s, p, id);
      }
      forall p | p in t.tasks && (t.tasks[p].Holding? || t.tasks[p].Ran?) && p != a.pid
        ensures t.tasks[p].id != e.id
      {
        assert Owns(t, p, t.tasks[p].id);
      }
    }
  }

  /** `finalize` checks no status: it is the owner's having executed that makes it safe. */
  lemma FinalizeStep(s: State, a: Step)
    requires Inv(s) && a.Finalize?
    ensures Inv(Do(s, a))
  {
    if a.pid in s.tasks && s.tasks[a.pid].Ran? {
      var t := Do(s, a);
      var id := s.tasks[a.pid].id;
      assert Owns(s, a.pid, id);
      forall p, i | Owns(t, p, i)
        ensures Owns(s, p, i) && i != id
      {
        assert Owns(s, p, i) && p != a.pid;
      }
      forall p | p in t.tasks && (t.tasks[p].Holding? || t.tasks[p].Ran?)
        ensures t.tasks[p].id != id
      {
        assert Owns(t, p, t.tasks[p].id);
      }
    }
  }

  lemma StepInv(s: State, a: Step)
    requires Inv(s)
    ensures Inv(Do(s, a))
  {
    match a {
      case Propose(_, _, _, _, _, _) => ProposeStep(s, a);
      case Consent(pid, winter, grants) =>
        if pid in s.tasks && s.tasks[pid].Proposed? && s.tasks[pid].id in s.rows {
          TaskOnlyStep(s, pid, Do(s, a).tasks[pid]);
        }
      case Approve(pid, id) => TaskOnlyStep(s, pid, Claiming(id));
      case Reject(_, _, _) => RejectStep(s, a);
      case Modify(pid, id, payload) => ModifyStep(s, pid, id, payload);
      case Claim(_) => ClaimStep(s, a);
      case Execute(_, _, _) => ExecuteStep(s, a);
      case Finalize(_) => FinalizeStep(s, a);
      case Fail(pid) => TaskOnlyStep(s, pid, Ended);
    }
  }

  lemma {:induction false} RunInv(s: State, steps: seq<Step>)
    requires Inv(s)
    ensures Inv(Run(s, steps))
    decreases |steps|
  {
    if steps != [] {
      StepInv(s, steps[0]);
      RunInv(Do(s, steps[0]), steps[1..]);
    }
  }

  /** Whatever handlers run and however their statements interleave: an action executes at
      most once, exactly once if its row says executed or failed, never if it is pending or
      rejected, and always with the payload its row holds. */
  lemma ExecutedAtMostOnce(steps: seq<Step>)
    ensures var t := Run(EMPTY, steps);
            && (forall id :: Times(t.log, id) <= 1)
            && (forall id :: id in t.rows && (t.rows[id].status.Executed? || t.rows[id].status.Failed?) ==>
                  Times(t.log, id) == 1)
            && (forall id :: id in t.rows && (t.rows[id].status.Pending? || t.rows[id].status.Rejected?) ==>
                  Times(t.log, id) == 0)
            && (forall i :: 0 <= i < |t.log| ==>
                  t.log[i].id in t.rows && t.log[i].payload == t.rows[t.log[i].id].payload)
  {
    RunInv(EMPTY, steps);
  }

  predicate Terminal(status: Status) {
    status.Executed? || status.Failed? || status.Rejected?
  }

  lemma SettledStep(s: State, a: Step, id: Id)
    requires Inv(s) && id in s.rows && !s.rows[id].status.Pending?
    ensures id in Do(s, a).rows && !Do(s, a).rows[id].status.Pending?
    ensures Do(s, a).rows[id].payload == s.rows[id].payload
    ensures Terminal(s.rows[id].status) ==> Do(s, a).rows[id] == s.rows[id]
  {
    if a.Finalize? && a.pid in s.tasks && s.tasks[a.pid].Ran? {
      assert Owns(s, a.pid, s.tasks[a.pid].id);
    }
  }

  /** Once a row has left `pending` it never returns and its payload never changes; a row
      in a terminal status never changes at all. */
  lemma {:induction false} SettledStays(s: State, steps: seq<Step>, id: Id)
    requires Inv(s) && id in s.rows && !s.rows[id].status.Pending?
    ensures var t := Run(s, steps);
            && id in t.rows && !t.rows[id].status.Pending?
            && t.rows[id].payload == s.rows[id].payload
            && (Terminal(s.rows[id].status) ==> t.rows[id] == s.rows[id])
    decreases |steps|
  {
    if steps != [] {
      SettledStep(s, steps[0], id);
      StepInv(s, steps[0]);
      SettledStays(Do(s, steps[0]), steps[1..], id);
    }
  }

  /** The lifecycle: pending to approved by a claim, pending to rejected by the proposing user,
      approved to executed or failed by the owner's report of what happened; nothing else
      changes a status. */
  lemma Lifecycle(s: State, a: Step, id: Id)
    requires OwnershipOk(s) && id in s.rows && Do(s, a).rows[id].status != s.rows[id].status
    ensures var (before, after) := (s.rows[id].status, Do(s, a).rows[id]);
            match after.status
            case Pending => false
            case Approved => before.Pending? && a.Claim? && Owns(Do(s, a), a.pid, id)
            case Rejected => before.Pending? && a.Reject? && a.id == id && a.user == s.rows[id].user
            case Executed => before.Approved? && a.Finalize? && Owns(s, a.pid, id) && s.tasks[a.pid].ok
            case Failed => before.Approved? && a.Finalize? && Owns(s, a.pid, id) && !s.tasks[a.pid].ok
  {
    if a.Finalize? {
      assert Owns(s, a.pid, s.tasks[a.pid].id);
    }
  }

  // ----- Counsel -----

  /** Nobody has set out to carry the action out. */
  ghost predicate Unapproved(s: State, id: Id) {
    && id in s.rows && (s.rows[id].status.Pending? || s.rows[id].status.Rejected?)
    && (forall p :: p in s.tasks && (s.tasks[p].Claiming? || s.tasks[p].Holding? || s.tasks[p].Ran?) ==>
          s.tasks[p].id != id)
  }

  /** Does this step set somebody out to carry the action out?  An approval or a modification
      that takes effect does, and so does the proposer's own consent, in winter or under a
      grant for the type.  What other users and other actions are granted does not matter. */
  predicate Counsels(s: State, a: Step, id: Id)
    requires id in s.rows
  {
    match a
    case Approve(pid, i) => i == id && pid !in s.tasks
    case Modify(pid, i, _) => i == id && pid !in s.tasks && s.rows[id].status.Pending?
    case Consent(pid, winter, grants) =>
      && pid in s.tasks && s.tasks[pid] == Proposed(id)
      && (winter || (s.rows[id].kind in grants && grants[s.rows[id].kind]))
    case _ => false
  }

  lemma RowsStay(s: State, a: Step, id: Id)
    requires id in s.rows
    ensures id in Do(s, a).rows && Do(s, a).rows[id].user == s.rows[id].user
    ensures Do(s, a).rows[id].kind == s.rows[id].kind
  {
  }

  /** Does some step of the schedule counsel the action? */
  ghost predicate SomeCounsel(s: State, steps: seq<Step>, id: Id)
    requires id in s.rows
    decreases |steps|
  {
    && steps != []
    && (Counsels(s, steps[0], id) || (RowsStay(s, steps[0], id); SomeCounsel(Do(s, steps[0]), steps[1..], id)))
  }

  /** Counsel is exactly what sets somebody out to carry the action out; until then it does not run. */
  lemma UnapprovedStep(s: State, a: Step, id: Id)
    requires Unapproved(s, id)
    ensures id in Do(s, a).rows && (Unapproved(Do(s, a), id) <==> !Counsels(s, a, id))
    ensures Times(Do(s, a).log, id) == Times(s.log, id)
  {
    RowsStay(s, a, id);
    if Counsels(s, a, id) {
      CounselSetsOut(s, a, id);
    } else {
      NoCounselKeeps(s, a, id);
    }
    if a.Execute? && a.pid in s.tasks && s.tasks[a.pid].Holding? {
      TimesAppend(s.log, Execution(s.tasks[a.pid].id, s.tasks[a.pid].row.payload, a.pid), id);
    }
  }

  lemma CounselSetsOut(s: State, a: Step, id: Id)
    requires Unapproved(s, id) && Counsels(s, a, id)
    ensures a.pid in Do(s, a).tasks && Do(s, a).tasks[a.pid] == Claiming(id)
  {
  }

  lemma NoCounselKeeps(s: State, a: Step, id: Id)
    requires Unapproved(s, id) && !Counsels(s, a, id)
    ensures Unapproved(Do(s, a), id)
  {
  }

  /** A proposal begins pending, with its proposer about to ask for consent and nobody set out. */
  lemma ProposalBegins(s: State, a: Step)
    requires a.Propose? && a.pid !in s.tasks && a.id !in s.rows
    requires forall p :: p in s.tasks && (s.tasks[p].Claiming? || s.tasks[p].Holding? || s.tasks[p].Ran?) ==>
               s.tasks[p].id != a.id
    ensures var t := Do(s, a);
            && t.rows == s.rows[a.id := Row(a.user, a.kind, a.path, a.payload, Pending, "")]
            && t.tasks == s.tasks[a.pid := Proposed(a.id)] && t.log == s.log && Unapproved(t, a.id)
  {
  }

  /** Nothing runs without counsel: whatever else the schedule does, for other users and other
      actions, an action that none of its steps counsels never runs and leaves pending only by
      being rejected. */
  lemma {:induction false} NothingRunsWithoutCounsel(s: State, steps: seq<Step>, id: Id)
    requires Unapproved(s, id) && !SomeCounsel(s, steps, id)
    ensures Unapproved(Run(s, steps), id) && Times(Run(s, steps).log, id) == Times(s.log, id)
    decreases |steps|
  {
    if steps != [] {
      UnapprovedStep(s, steps[0], id);
      NothingRunsWithoutCounsel(Do(s, steps[0]), steps[1..], id);
    }
  }

  /** How often the handler has executed anything. */
  function RunsBy(log: seq<Execution>, pid: Pid): nat {
    if log == [] then 0 else RunsBy(log[..|log| - 1], pid) + if log[|log| - 1].pid == pid then 1 else 0
  }

  lemma RunsByAppend(log: seq<Execution>, e: Execution, pid: Pid)
    ensures RunsBy(log + [e], pid) == RunsBy(log, pid) + if e.pid == pid then 1 else 0
  {
  }

  lemma EndedStep(s: State, a: Step, pid: Pid)
    requires pid in s.tasks && s.tasks[pid].Ended?
    ensures pid in Do(s, a).tasks && Do(s, a).tasks[pid].Ended? && RunsBy(Do(s, a).log, pid) == RunsBy(s.log, pid)
  {
    if a.Execute? && a.pid in s.tasks && s.tasks[a.pid].Holding? {
      RunsByAppend(s.log, Execution(s.tasks[a.pid].id, s.tasks[a.pid].row.payload, a.pid), pid);
    }
  }

  lemma {:induction false} EndedForGood(s: State, steps: seq<Step>, pid: Pid)
    requires pid in s.tasks && s.tasks[pid].Ended?
    ensures RunsBy(Run(s, steps).log, pid) == RunsBy(s.log, pid)
    decreases |steps|
  {
    if steps != [] {
      EndedStep(s, steps[0], pid);
      EndedForGood(Do(s, steps[0]), steps[1..], pid);
    }
  }

  /** On some schedule from here, the handler executes something. */
  ghost predicate MayExecute(s: State, pid: Pid) {
    exists steps :: RunsBy(Run(s, steps).log, pid) > RunsBy(s.log, pid)
  }

  lemma ClaimingMayExecute(s: State, pid: Pid, id: Id)
    requires pid in s.tasks && s.tasks[pid] == Claiming(id) && id in s.rows && s.rows[id].status.Pending?
    ensures MayExecute(s, pid)
  {
    var held := Do(s, Claim(pid));
    RunTwo(s, Claim(pid), Execute(pid, true, ""), []);
    RunsByAppend(held.log, Execution(id, held.tasks[pid].row.payload, pid), pid);
  }

  /** Consent decides.  The handler that proposed a pending action goes on to carry it out
      exactly if it is winter or the grant for the action's type is there and switched on;
      otherwise it ends, and no schedule lets it execute anything. */
  lemma ConsentDecides(s: State, pid: Pid, id: Id, winter: bool, grants: map<string, bool>)
    requires pid in s.tasks && s.tasks[pid] == Proposed(id) && id in s.rows && s.rows[id].status.Pending?
    ensures var t := Do(s, Consent(pid, winter, grants));
            var allowed := winter || (s.rows[id].kind in grants && grants[s.rows[id].kind]);
            && t.rows == s.rows && t.log == s.log
            && t.tasks == s.tasks[pid := if allowed then Claiming(id) else Ended]
            && (MayExecute(t, pid) <==> allowed)
  {
    var t := Do(s, Consent(pid, winter, grants));
    if t.tasks[pid].Ended? {
      forall steps
        ensures RunsBy(Run(t, steps).log, pid) == RunsBy(t.log, pid)
      {
        EndedForGood(t, steps, pid);
      }
    } else {
      ClaimingMayExecute(t, pid, id);
    }
  }

  // ----- A handler that fails -----

  /** Approved, but no handler owns it any more. */
  ghost predicate Orphaned(s: State, id: Id) {
    Inv(s) && id in s.rows && s.rows[id].status.Approved? && forall p :: !Owns(s, p, id)
  }

  lemma OrphanKeepsRow(s: State, a: Step, id: Id)
    requires id in s.rows && s.rows[id].status.Approved? && forall p :: !Owns(s, p, id)
    ensures id in Do(s, a).rows && Do(s, a).rows[id].status.Approved?
  {
    if a.Finalize? && a.pid in s.tasks && s.tasks[a.pid].Ran? {
      assert !Owns(s, a.pid, id);
    }
  }

  lemma OrphanKeepsLog(s: State, a: Step, id: Id)
    requires forall p :: !Owns(s, p, id)
    ensures Times(Do(s, a).log, id) == Times(s.log, id)
  {
    if a.Execute? && a.pid in s.tasks && s.tasks[a.pid].Holding? {
      assert !Owns(s, a.pid, id);
      TimesAppend(s.log, Execution(s.tasks[a.pid].id, s.tasks[a.pid].row.payload, a.pid), id);
    }
  }

  /** Ownership begins only by claiming a pending row. */
  lemma OwnershipBegins(s: State, a: Step, p: Pid, id: Id)
    requires Owns(Do(s, a), p, id) && !Owns(s, p, id)
    ensures id in s.rows && s.rows[id].status.Pending?
  {
  }

  lemma OrphanStep(s: State, a: Step, id: Id)
    requires Orphaned(s, id)
    ensures Orphaned(Do(s, a), id) && Times(Do(s, a).log, id) == Times(s.log, id)
  {
    var t := Do(s, a);
    OrphanKeepsRow(s, a, id);
    OrphanKeepsLog(s, a, id);
    forall p
      ensures !Owns(t, p, id)
    {
      if Owns(t, p, id) {
        assert !Owns(s, p, id);
        OwnershipBegins(s, a, p, id);
      }
    }
    assert Inv(t) by {
      StepInv(s, a);
    }
  }

  lemma {:induction false} OrphanStays(s: State, steps: seq<Step>, id: Id)
    requires Orphaned(s, id)
    ensures Orphaned(Run(s, steps), id) && Times(Run(s, steps).log, id) == Times(s.log, id)
    decreases |steps|
  {
    if steps != [] {
      OrphanStep(s, steps[0], id);
      OrphanStays(Do(s, steps[0]), steps[1..], id);
    }
  }

  lemma {:induction false} UnusedPid(used: set<Pid>) returns (p: Pid)
    ensures forall q :: q in used ==> q < p
  {
    if used == {} {
      p := 0;
    } else {
      var q :| q in used;
      var p0 := UnusedPid(used - {q});
      p := if p0 > q then p0 else q + 1;
      forall r | r in used
        ensures r < p
      {
        if r != q {
          assert r in used - {q};
        }
      }
    }
  }

  /** A pending row can still be approved and carried out. */
  lemma PendingCanFinish(s: State, id: Id)
    requires id in s.rows && s.rows[id].status.Pending?
    ensures CanFinish(s, id)
  {
    var p := UnusedPid(s.tasks.Keys);
    var s2 := Do(Do(s, Approve(p, id)), Claim(p));
    OwnerCanFinish(s2, p, id);
    var steps :| id in Run(s2, steps).rows && Terminal(Run(s2, steps).rows[id].status);
    RunTwo(s, Approve(p, id), Claim(p), steps);
  }

  lemma RunTwo(s: State, a: Step, b: Step, steps: seq<Step>)
    ensures Run(s, [a, b] + steps) == Run(Do(Do(s, a), b), steps)
  {
  }

  /** A row with an owner will be carried out if the owner goes on. */
  lemma OwnerCanFinish(s: State, p: Pid, id: Id)
    requires id in s.rows && Owns(s, p, id)
    ensures CanFinish(s, id)
  {
    if s.tasks[p].Holding? {
      RunTwo(s, Execute(p, true, ""), Finalize(p), []);
    } else {
      assert [Finalize(p)][1..] == [];
      assert Run(s, [Finalize(p)]) == Run(Do(s, Finalize(p)), []);
    }
  }

  ghost predicate CanFinish(s: State, id: Id) {
    exists steps :: id in Run(s, steps).rows && Terminal(Run(s, steps).rows[id].status)
  }

  ghost predicate OwnedByOther(s: State, pid: Pid, id: Id) {
    exists q :: q != pid && Owns(s, q, id)
  }

  lemma OthersKeepOwning(s: State, pid: Pid, id: Id)
    requires pid in s.tasks
    ensures forall q :: Owns(Do(s, Fail(pid)), q, id) <==> q != pid && Owns(s, q, id)
  {
  }

  /** A failing handler changes no row.  What it was working on, or anything else, can still
      reach a terminal status exactly if it is not approved or another handler owns it: an
      approved row whose owner fails stays so for ever. */
  lemma FailureStrandsExactlyItsOwn(s: State, pid: Pid, id: Id)
    requires Inv(s) && pid in s.tasks && id in s.rows
    ensures Do(s, Fail(pid)).rows == s.rows
    ensures CanFinish(Do(s, Fail(pid)), id) <==> !s.rows[id].status.Approved? || OwnedByOther(s, pid, id)
  {
    var t := Do(s, Fail(pid));
    StepInv(s, Fail(pid));
    OthersKeepOwning(s, pid, id);
    if Terminal(s.rows[id].status) {
      assert Run(t, []) == t;
    } else if s.rows[id].status.Pending? {
      PendingCanFinish(t, id);
    } else if OwnedByOther(s, pid, id) {
      var q :| q != pid && Owns(s, q, id);
      OwnerCanFinish(t, q, id);
    } else {
      forall steps
        ensures id in Run(t, steps).rows && Run(t, steps).rows[id].status.Approved?
      {
        OrphanStays(t, steps, id);
      }
    }
  }

  /** Does this step take the row out of pending? */
  predicate Resolves(s: State, a: Step, id: Id)
    requires id in s.rows
  {
    && s.rows[id].status.Pending?
    && match a
       case Claim(pid) => pid in s.tasks && s.tasks[pid] == Claiming(id)
       case Reject(pid, i, user) => pid !in s.tasks && i == id && user == s.rows[id].user
       case _ => false
  }

  ghost predicate SomeResolved(s: State, steps: seq<Step>, id: Id)
    requires id in s.rows
    decreases |steps|
  {
    && steps != []
    && (Resolves(s, steps[0], id) || (RowsStay(s, steps[0], id); SomeResolved(Do(s, steps[0]), steps[1..], id)))
  }

  lemma ResolvesDecides(s: State, a: Step, id: Id)
    requires Inv(s) && id in s.rows && s.rows[id].status.Pending?
    ensures id in Do(s, a).rows
    ensures Do(s, a).rows[id].status.Pending? <==> !Resolves(s, a, id)
  {
    PendingIsUntouched(s, id);
    if a.Finalize? && a.pid in s.tasks && s.tasks[a.pid].Ran? {
      assert Owns(s, a.pid, s.tasks[a.pid].id);
    }
  }

  lemma {:induction false} PendingExactlyIfUnresolved(s: State, steps: seq<Step>, id: Id)
    requires Inv(s) && id in s.rows && s.rows[id].status.Pending?
    ensures id in Run(s, steps).rows
    ensures Run(s, steps).rows[id].status.Pending? <==> !SomeResolved(s, steps, id)
    decreases |steps|
  {
    if steps != [] {
      var s1 := Do(s, steps[0]);
      StepInv(s, steps[0]);
      ResolvesDecides(s, steps[0], id);
      if Resolves(s, steps[0], id) {
        SettledStays(s1, steps[1..], id);
      } else {
        PendingExactlyIfUnresolved(s1, steps[1..], id);
      }
    }
  }

  lemma {:induction false} TasksStay(s: State, steps: seq<Step>, pid: Pid)
    requires pid in s.tasks
    ensures pid in Run(s, steps).tasks
    decreases |steps|
  {
    if steps != [] {
      TasksStay(Do(s, steps[0]), steps[1..], pid);
    }
  }

  /** The proposing handler reports that after an exception its "action remains pending".
      Whatever ran since it proposed, that is so exactly if no claim and no reject of the
      action took effect; and the action is lost exactly if it is approved and nobody but
      the failing handler owned it. */
  lemma RemainsPendingExactlyWhen(s: State, a: Step, steps: seq<Step>)
    requires Inv(s) && a.Propose? && a.pid !in s.tasks && a.id !in s.rows
    ensures var s1 := Do(s, a);
            var t := Run(s1, steps);
            var after := Do(t, Fail(a.pid));
            && a.id in s1.rows && a.id in t.rows && a.id in after.rows
            && (after.rows[a.id].status.Pending? <==> !SomeResolved(s1, steps, a.id))
            && (CanFinish(after, a.id) <==> !t.rows[a.id].status.Approved? || OwnedByOther(t, a.pid, a.id))
  {
    var s1 := Do(s, a);
    StepInv(s, a);
    RunInv(s1, steps);
    TasksStay(s1, steps, a.pid);
    PendingExactlyIfUnresolved(s1, steps, a.id);
    FailureStrandsExactlyItsOwn(Run(s1, steps), a.pid, a.id);
  }

  /** An input that shows it: the proposal claims its row in winter, then raises. */
  lemma FailureAfterClaimExample()
    ensures var t := Run(EMPTY, [Propose(0, 0, "u", "command", "", "p"), Consent(0, true, map[]), Claim(0), Fail(0)]);
            t.rows[0].status.Approved? && t.log == []
  {
  }

  /** Another, in which the failing handler never claimed: its user rejected the action first. */
  lemma FailureAfterRejectExample()
    ensures var t := Run(EMPTY, [Propose(0, 0, "u", "command", "", "p"), Reject(1, 0, "u"), Fail(0)]);
            t.rows[0].status.Rejected? && !exists p :: Owns(t, p, 0)
  {
  }

  // ----- Modifying a proposal -----

  /** Does this step write the row's payload? */
  predicate Rewrites(s: State, a: Step, id: Id)
    requires id in s.rows
  {
    a.Modify? && a.id == id && a.pid !in s.tasks && s.rows[id].status.Pending?
  }

  ghost predicate SomeRewrites(s: State, steps: seq<Step>, id: Id)
    requires id in s.rows
    decreases |steps|
  {
    && steps != []
    && (Rewrites(s, steps[0], id) || (RowsStay(s, steps[0], id); SomeRewrites(Do(s, steps[0]), steps[1..], id)))
  }

  /** What the last step to write the payload wrote; `mine` if none did. */
  ghost function LastPayload(s: State, steps: seq<Step>, id: Id, mine: string): string
    requires id in s.rows
    decreases |steps|
  {
    if steps == [] then mine
    else
      RowsStay(s, steps[0], id);
      LastPayload(Do(s, steps[0]), steps[1..], id, if Rewrites(s, steps[0], id) then steps[0].payload else mine)
  }

  lemma {:induction false} PayloadIsTheLast(s: State, steps: seq<Step>, id: Id)
    requires id in s.rows
    ensures id in Run(s, steps).rows
    ensures Run(s, steps).rows[id].payload == LastPayload(s, steps, id, s.rows[id].payload)
    decreases |steps|
  {
    if steps != [] {
      RowsStay(s, steps[0], id);
      PayloadIsTheLast(Do(s, steps[0]), steps[1..], id);
    }
  }

  lemma AuthorStep(s: State, a: Step, id: Id, pid: Pid)
    requires AuthorsOk(s) && id in s.rows && pid in s.tasks
    ensures id in Do(s, a).author
    ensures Do(s, a).author[id] == pid <==> s.author[id] == pid && !Rewrites(s, a, id)
  {
  }

  lemma {:induction false} AuthorUnlessRewritten(s: State, steps: seq<Step>, id: Id, pid: Pid)
    requires Inv(s) && id in s.rows && pid in s.tasks
    ensures id in Run(s, steps).author
    ensures Run(s, steps).author[id] == pid <==> s.author[id] == pid && !SomeRewrites(s, steps, id)
    decreases |steps|
  {
    if steps != [] {
      StepInv(s, steps[0]);
      AuthorStep(s, steps[0], id, pid);
      RowsStay(s, steps[0], id);
      AuthorUnlessRewritten(Do(s, steps[0]), steps[1..], id, pid);
    }
  }

  /** Whoever claims a row is handed the payload written last, by whichever handler. */
  lemma ClaimTakesLastPayload(s: State, pid: Pid)
    requires AuthorsOk(s) && pid in s.tasks && s.tasks[pid].Claiming?
    requires Do(s, Claim(pid)).tasks[pid].Holding?
    ensures var id := s.tasks[pid].id;
            && id in s.author && s.author[id] in s.wrote
            && Do(s, Claim(pid)).tasks[pid].row.payload == s.wrote[s.author[id]]
  {
  }

  /** "Modify a pending proposal's payload, then execute the modified version".  Whatever ran
      since a handler modified the action: the payload is its own exactly if no later modify
      took effect; whoever executed the action executed the payload written last; and if the
      handler's own claim succeeds, that payload is what it is handed to execute. */
  lemma ModifyExecutesLastPayload(s: State, pid: Pid, id: Id, mine: string, steps: seq<Step>)
    requires Inv(s) && pid !in s.tasks && id in s.rows && s.rows[id].status.Pending?
    ensures var s1 := Do(s, Modify(pid, id, mine));
            var t := Run(s1, steps);
            && id in s1.rows && id in t.author
            && (t.author[id] == pid <==> !SomeRewrites(s1, steps, id))
            && (forall i :: 0 <= i < |t.log| && t.log[i].id == id ==>
                  t.log[i].payload == LastPayload(s1, steps, id, mine))
            && (pid in t.tasks && t.tasks[pid] == Claiming(id) && Do(t, Claim(pid)).tasks[pid].Holding? ==>
                  Do(t, Claim(pid)).tasks[pid].row.payload == LastPayload(s1, steps, id, mine))
  {
    var s1 := Do(s, Modify(pid, id, mine));
    StepInv(s, Modify(pid, id, mine));
    RunInv(s1, steps);
    PayloadIsTheLast(s1, steps, id);
    AuthorUnlessRewritten(s1, steps, id, pid);
  }

  /** So a handler may execute a payload that is not its own, and the handler that wrote it
      then finds nothing to claim. */
  lemma LaterModifyWins(s: State, first: Pid, second: Pid, id: Id, mine: string, theirs: string)
    requires Inv(s) && first != second && first !in s.tasks && second !in s.tasks
    requires id in s.rows && s.rows[id].status.Pending?
    ensures var s2 := Do(Do(s, Modify(first, id, mine)), Modify(second, id, theirs));
            var s4 := Do(Do(s2, Claim(first)), Execute(first, true, ""));
            && s4.log == s.log + [Execution(id, theirs, first)]
            && s4.tasks[second] == Claiming(id) && Do(s4, Claim(second)).tasks[second] == Ended
  {
    var s1 := Do(s, Modify(first, id, mine));
    assert s1.tasks == s.tasks[first := Claiming(id)] && s1.rows[id].status.Pending?;
    var s2 := Do(s1, Modify(second, id, theirs));
    assert s2.tasks == s1.tasks[second := Claiming(id)];
    assert s2.rows[id].status.Pending? && s2.rows[id].payload == theirs && s2.log == s.log;
    var s3 := Do(s2, Claim(first));
    assert s3.tasks[first] == Holding(id, s2.rows[id].(status := Approved)) && s3.rows[id].status.Approved?;
    var s4 := Do(s3, Execute(first, true, ""));
    assert s4.rows == s3.rows && s4.tasks[second] == Claiming(id);
  }
}
