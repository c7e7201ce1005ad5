/** Isolated requests: calls that hand a request to a thread of its own, and those threads, interleaved step by step
    around one mutex and one list. */
module Isolation {
  import opened Common

  datatype Errno = Ok | Already | NoMemory | Again

  /** Where an isolate call stands: the step it takes next. */
  datatype CallPc =
    | Idle
    | Entering(q: nat)
    | Holding(q: nat)
    | Filled(q: nat, r: nat)
    | Suspended(q: nat, r: nat)
    | Appended(q: nat, r: nat)
    | Marked(q: nat, r: nat)
    | Failed(q: nat, r: nat)
    | Unlinked(q: nat, r: nat)
    | Freed(q: nat, r: nat)
    | Leaving(q: nat, errno: Errno)

  /** Where a worker thread stands. */
  datatype WorkerPc = Running | Returned | HasLock | Deleted | Released | Resumed | Done

  /** A request, with what has been done to its connection and how often its callback has run. `rec` is the record
      made for it. */
  datatype Request = Request(isolated: bool, rec: Option<nat>, suspends: nat, resumes: nat, callbacks: nat)

  datatype Record = Record(q: nat, unlinks: nat, frees: nat)

  datatype Lock = Free | ByCall(t: nat) | ByWorker(r: nat)

  datatype State = State(lock: Lock, list: seq<nat>, reqs: map<nat, Request>, recs: map<nat, Record>,
                         calls: map<nat, CallPc>, workers: map<nat, WorkerPc>, next: nat)

  /** What can happen next: a new call on a request, a step of a call (an allocation or a thread creation in it may
      fail), a step of a worker. */
  datatype Action = Call(t: nat, q: nat) | Advance(t: nat, ok: bool) | Run(r: nat)

  function Pc(s: State, t: nat): CallPc {
    if t in s.calls then s.calls[t] else Idle
  }

  /** A list without one of its elements. */
  function Remove(l: seq<nat>, r: nat): seq<nat> {
    if |l| == 0 then [] else if l[0] == r then l[1..] else [l[0]] + Remove(l[1..], r)
  }

  function Goto(s: State, t: nat, pc: CallPc): State {
    s.(calls := s.calls[t := pc])
  }

  function WithReq(s: State, q: nat, req: Request): State {
    s.(reqs := s.reqs[q := req])
  }

  function WithRec(s: State, r: nat, rec: Record): State {
    s.(recs := s.recs[r := rec])
  }

  /** A step of a call up to the point where it has a record, or of its end. */
  function EnterOrLeave(s: State, t: nat, ok: bool): Option<State> {
    match Pc(s, t)
    case Entering(q) => if s.lock == Free then Some(Goto(s, t, Holding(q)).(lock := ByCall(t))) else None
    case Holding(q) =>
      if q !in s.reqs then None
      else if s.reqs[q].isolated then Some(Goto(s, t, Leaving(q, Already)))
      else if !ok then Some(Goto(s, t, Leaving(q, NoMemory)))
      else
        var r := s.next;
        Some(Goto(WithReq(WithRec(s, r, Record(q, 0, 0)), q, s.reqs[q].(rec := Some(r))), t, Filled(q, r)).(next := r + 1))
    case Leaving(q, e) => Some(Goto(s, t, Idle).(lock := Free))
    case _ => None
  }

  /** A step of a call that has a record: suspend the connection, append the record, mark the request, create the
      thread; and when that fails, unlink the record, free it and resume the connection. */
  function Build(s: State, t: nat, ok: bool): Option<State> {
    match Pc(s, t)
    case Filled(q, r) =>
      if q !in s.reqs then None
      else Some(Goto(WithReq(s, q, s.reqs[q].(suspends := s.reqs[q].suspends + 1)), t, Suspended(q, r)))
    case Suspended(q, r) => Some(Goto(s, t, Appended(q, r)).(list := s.list + [r]))
    case Appended(q, r) =>
      if q !in s.reqs then None
      else Some(Goto(WithReq(s, q, s.reqs[q].(isolated := true)), t, Marked(q, r)))
    case Marked(q, r) =>
      if ok then Some(Goto(s, t, Leaving(q, Ok)).(workers := s.workers[r := Running]))
      else Some(Goto(s, t, Failed(q, r)))
    case Failed(q, r) =>
      if r !in s.recs then None
      else
        var s' := WithRec(s, r, s.recs[r].(unlinks := s.recs[r].unlinks + 1));
        Some(Goto(s', t, Unlinked(q, r)).(list := Remove(s.list, r)))
    case Unlinked(q, r) =>
      if r !in s.recs then None
      else Some(Goto(WithRec(s, r, s.recs[r].(frees := s.recs[r].frees + 1)), t, Freed(q, r)))
    case Freed(q, r) =>
      if q !in s.reqs then None
      else Some(Goto(WithReq(s, q, s.reqs[q].(resumes := s.reqs[q].resumes + 1)), t, Leaving(q, Again)))
    case _ => None
  }

  /** One step of the call of thread `t`. */
  function AdvanceCall(s: State, t: nat, ok: bool): Option<State> {
    if Builds(Pc(s, t)) then Build(s, t, ok) else EnterOrLeave(s, t, ok)
  }

  /** One step of the worker of record `r`. */
  function RunWorker(s: State, r: nat): Option<State> {
    if r !in s.workers || r !in s.recs || s.recs[r].q !in s.reqs then None
    else
      var q := s.recs[r].q;
      var rec, req := s.recs[r], s.reqs[q];
      match s.workers[r]
      case Running =>
        Some(WithReq(s, q, req.(callbacks := req.callbacks + 1)).(workers := s.workers[r := Returned]))
      case Returned =>
        if s.lock == Free then Some(s.(lock := ByWorker(r), workers := s.workers[r := HasLock])) else None
      case HasLock =>
        Some(WithRec(s, r, rec.(unlinks := rec.unlinks + 1)).(list := Remove(s.list, r), workers := s.workers[r := Deleted]))
      case Deleted => Some(s.(lock := Free, workers := s.workers[r := Released]))
      case Released =>
        Some(WithReq(s, q, req.(resumes := req.resumes + 1)).(workers := s.workers[r := Resumed]))
      case Resumed =>
        Some(WithRec(s, r, rec.(frees := rec.frees + 1)).(workers := s.workers[r := Done]))
      case Done => None
  }

  function Step(s: State, a: Action): Option<State> {
    match a
    case Call(t, q) => if Pc(s, t) == Idle && q in s.reqs then Some(Goto(s, t, Entering(q))) else None
    case Advance(t, ok) => AdvanceCall(s, t, ok)
    case Run(r) => RunWorker(s, r)
  }

  /** A server with some requests, none of them isolated. */
  function Start(qs: set<nat>): State {
    State(Free, [], map q | q in qs :: Request(false, None, 0, 0, 0), map[], map[], map[], 0)
  }

  /** The state after a schedule: actions that cannot be taken are skipped. */
  function Exec(s: State, schedule: seq<Action>): State {
    if |schedule| == 0 then s
    else
      var before := Exec(s, schedule[..|schedule| - 1]);
      match Step(before, schedule[|schedule| - 1])
      case Some(after) => after
      case None => before
  }

  // ---------------------------------------------------------------- what every step keeps

  /** How far a record has come: still being set up by the call in the critical section, in the hands of its worker,
      or given up because its thread could not be created. */
  datatype Stage = Building(pc: CallPc) | Working(at: WorkerPc) | Abandoned

  /** The call in the critical section. */
  function Current(s: State): CallPc {
    if s.lock.ByCall? then Pc(s, s.lock.t) else Idle
  }

  /** A record is being set up, or taken down again. */
  predicate Builds(pc: CallPc) {
    pc.Filled? || pc.Suspended? || pc.Appended? || pc.Marked? || pc.Failed? || pc.Unlinked? || pc.Freed?
  }

  predicate Mentions(pc: CallPc, r: nat) {
    Builds(pc) && pc.r == r
  }

  predicate Critical(pc: CallPc) {
    !pc.Idle? && !pc.Entering?
  }

  function StageOf(s: State, r: nat): Stage {
    if Mentions(Current(s), r) then Building(Current(s))
    else if r in s.workers then Working(s.workers[r])
    else Abandoned
  }

  /** Linked into the list at this stage. */
  predicate Linked(g: Stage) {
    match g
    case Building(pc) => pc.Appended? || pc.Marked? || pc.Failed?
    case Working(w) => w.Running? || w.Returned? || w.HasLock?
    case Abandoned => false
  }

  function Unlinks(g: Stage): nat {
    match g
    case Building(pc) => if pc.Unlinked? || pc.Freed? then 1 else 0
    case Working(w) => if Linked(g) then 0 else 1
    case Abandoned => 1
  }

  function Frees(g: Stage): nat {
    match g
    case Building(pc) => if pc.Freed? then 1 else 0
    case Working(w) => if w.Done? then 1 else 0
    case Abandoned => 1
  }

  /** What the request of a record looks like when the record is at this stage. */
  function RequestAt(g: Stage, r: nat): Request {
    match g
    case Building(pc) =>
      Request(pc.Marked? || pc.Failed? || pc.Unlinked? || pc.Freed?, Some(r), if pc.Filled? then 0 else 1, 0, 0)
    case Working(w) =>
      Request(true, Some(r), 1, if w.Resumed? || w.Done? then 1 else 0, if w.Running? then 0 else 1)
    case Abandoned => Request(true, Some(r), 1, 1, 0)
  }

  /** Calls and workers agree with the lock about who is in the critical section. */
  ghost predicate LockOk(s: State) {
    && (forall t <- s.calls :: Critical(s.calls[t]) <==> s.lock == ByCall(t))
    && (s.lock.ByCall? ==> s.lock.t in s.calls)
    && (forall r <- s.workers :: (s.workers[r].HasLock? || s.workers[r].Deleted?) <==> s.lock == ByWorker(r))
    && (s.lock.ByWorker? ==> s.lock.r in s.workers)
  }

  /** One record is where its stage says it is. */
  ghost predicate RecordOk(s: State, r: nat)
    requires r in s.recs
  {
    var g := StageOf(s, r);
    && s.recs[r] == Record(s.recs[r].q, Unlinks(g), Frees(g))
    && s.recs[r].q in s.reqs && s.reqs[s.recs[r].q] == RequestAt(g, r)
    && (r in s.list <==> Linked(g))
    && (g.Building? ==> g.pc.q == s.recs[r].q && r !in s.workers)
  }

  /** The list is in the order of isolation, and its records are known. */
  ghost predicate ListOk(s: State) {
    && Increasing(s.list)
    && (forall r <- s.list :: r in s.recs)
  }

  /** Everything that is mentioned exists. */
  ghost predicate RefsOk(s: State) {
    && (forall r <- s.recs :: r < s.next)
    && (forall r <- s.workers :: r in s.recs)
    && (Builds(Current(s)) ==> Current(s).r in s.recs && Current(s).r + 1 == s.next)
    && (forall t <- s.calls :: s.calls[t].Idle? || s.calls[t].q in s.reqs)
    && (forall q <- s.reqs :: s.reqs[q] == Request(false, None, 0, 0, 0) || Owned(s, q))
  }

  /** While a call that has created a worker still holds the lock, that worker has not got it. */
  ghost predicate CreatedOk(s: State) {
    Current(s).Leaving? && Current(s).errno == Ok ==> JustCreated(s, Current(s).q)
  }

  /** The worker of this request has been created and has not had the lock yet. */
  ghost predicate JustCreated(s: State, q: nat) {
    && q in s.reqs && s.reqs[q].rec.Some? && s.reqs[q].rec.value in s.workers
    && var w := s.workers[s.reqs[q].rec.value]; w.Running? || w.Returned?
  }

  ghost predicate Owned(s: State, q: nat)
    requires q in s.reqs
  {
    s.reqs[q].rec.Some? && s.reqs[q].rec.value in s.recs && s.recs[s.reqs[q].rec.value].q == q
  }

  ghost predicate Inv(s: State) {
    LockOk(s) && ListOk(s) && RefsOk(s) && CreatedOk(s) && forall r <- s.recs :: RecordOk(s, r)
  }

  predicate Increasing(l: seq<nat>) {
    forall i, j :: 0 <= i < j < |l| ==> l[i] < l[j]
  }

  lemma AscendingCons(x: nat, l: seq<nat>)
    requires Increasing(l) && forall y <- l :: x < y
    ensures Increasing([x] + l)
  {
    assert forall i :: 0 <= i < |l| ==> l[i] in l;
  }

  lemma {:induction false} RemoveIs(l: seq<nat>, r: nat)
    requires Increasing(l)
    ensures Increasing(Remove(l, r)) && forall x :: x in Remove(l, r) <==> x in l && x != r
    decreases |l|
  {
    if |l| > 0 {
      var tail := l[1..];
      assert forall x :: x in l <==> x == l[0] || x in tail;
      assert forall x <- tail :: l[0] < x;
      if l[0] != r {
        RemoveIs(tail, r);
        AscendingCons(l[0], Remove(tail, r));
      }
    }
  }

  /** Appending the newest record keeps the list in order. */
  lemma AppendIs(l: seq<nat>, r: nat)
    requires Increasing(l) && forall x <- l :: x < r
    ensures Increasing(l + [r]) && forall x :: x in l + [r] <==> x in l || x == r
  {
    assert forall i :: 0 <= i < |l| ==> l[i] in l;
  }

  /** A step that does not concern a record leaves it where its stage says. */
  lemma RecordFrame(s: State, s': State, r: nat)
    requires r in s.recs && RecordOk(s, r) && StageOf(s', r) == StageOf(s, r)
    requires r in s'.recs && s'.recs[r] == s.recs[r] && (r in s'.list <==> r in s.list)
    requires s.recs[r].q in s.reqs ==> s.recs[r].q in s'.reqs && s'.reqs[s.recs[r].q] == s.reqs[s.recs[r].q]
    requires r in s'.workers <==> r in s.workers
    ensures RecordOk(s', r)
  {
  }

  lemma OwnRecord(s: State, r: nat)
    requires r in s.recs && RecordOk(s, r)
    ensures s.recs[r].q in s.reqs && s.reqs[s.recs[r].q].rec == Some(r)
    ensures StageOf(s, r).Building? ==> Current(s).q == s.recs[r].q
  {
  }

  lemma CallKeeps(s: State, t: nat, q: nat)
    requires Inv(s) && Step(s, Call(t, q)).Some?
    ensures Inv(Step(s, Call(t, q)).value)
  {
    hide RecordOk, ListOk;
    var s' := Step(s, Call(t, q)).value;
    assert ListOk(s') by { SameList(s, s'); }
    forall r <- s'.recs ensures RecordOk(s', r) { RecordFrame(s, s', r); }
  }

  lemma SameList(s: State, s': State)
    requires ListOk(s) && s'.list == s.list && forall r <- s.recs :: r in s'.recs
    ensures ListOk(s')
  {
  }

  // ---------------------------------------------------------------- steps of a call

  /** This step of a call makes a record. */
  predicate Allocates(s: State, t: nat, ok: bool) {
    var pc := Pc(s, t);
    pc.Holding? && pc.q in s.reqs && !s.reqs[pc.q].isolated && ok
  }

  /** What a step of a call can change: its own place, the lock, its request, its record. */
  lemma CallPlace(s: State, t: nat, ok: bool)
    requires AdvanceCall(s, t, ok).Some?
    ensures var s', pc := AdvanceCall(s, t, ok).value, Pc(s, t);
      && !pc.Idle?
      && s'.calls == s.calls[t := Pc(s', t)]
      && (if pc.Leaving? then Pc(s', t).Idle? else Critical(Pc(s', t)) && Pc(s', t).q == pc.q)
  {
  }

  lemma CallOthers(s: State, t: nat, ok: bool)
    requires AdvanceCall(s, t, ok).Some?
    ensures var s', pc := AdvanceCall(s, t, ok).value, Pc(s, t);
      && s'.lock == (if pc.Entering? then ByCall(t) else if pc.Leaving? then Free else s.lock)
      && (pc.Entering? ==> s.lock == Free)
      && s'.workers == (if pc.Marked? && ok then s.workers[pc.r := Running] else s.workers)
  {
  }

  lemma CallShape(s: State, t: nat, ok: bool)
    requires AdvanceCall(s, t, ok).Some?
    ensures var s', pc := AdvanceCall(s, t, ok).value, Pc(s, t);
      && !pc.Idle?
      && s'.calls == s.calls[t := Pc(s', t)]
      && s'.lock == (if pc.Entering? then ByCall(t) else if pc.Leaving? then Free else s.lock)
      && (pc.Entering? ==> s.lock == Free)
      && (if pc.Leaving? then Pc(s', t).Idle? else Critical(Pc(s', t)) && Pc(s', t).q == pc.q)
      && s'.workers == (if pc.Marked? && ok then s.workers[pc.r := Running] else s.workers)
  {
    hide AdvanceCall;
    CallPlace(s, t, ok);
    CallOthers(s, t, ok);
  }

  lemma CallReqs(s: State, t: nat, ok: bool)
    requires AdvanceCall(s, t, ok).Some?
    ensures var s', pc := AdvanceCall(s, t, ok).value, Pc(s, t);
      && s'.reqs.Keys == s.reqs.Keys
      && (forall q <- s.reqs :: q != pc.q ==> s'.reqs[q] == s.reqs[q])
      && (!Builds(pc) && !Allocates(s, t, ok) ==> s'.reqs == s.reqs && s'.recs == s.recs)
  {
  }

  lemma CallRecs(s: State, t: nat, ok: bool)
    requires AdvanceCall(s, t, ok).Some?
    ensures var s', pc := AdvanceCall(s, t, ok).value, Pc(s, t);
      && s'.recs.Keys == (if Allocates(s, t, ok) then s.recs.Keys + {s.next} else s.recs.Keys)
      && (forall r <- s.recs :: (Builds(pc) && r == pc.r) || r == s.next || s'.recs[r] == s.recs[r])
      && s'.next == (if Allocates(s, t, ok) then s.next + 1 else s.next)
  {
  }

  lemma CallData(s: State, t: nat, ok: bool)
    requires AdvanceCall(s, t, ok).Some?
    ensures var s', pc := AdvanceCall(s, t, ok).value, Pc(s, t);
      && s'.reqs.Keys == s.reqs.Keys
      && (forall q <- s.reqs :: q != pc.q ==> s'.reqs[q] == s.reqs[q])
      && s'.recs.Keys == (if Allocates(s, t, ok) then s.recs.Keys + {s.next} else s.recs.Keys)
      && (forall r <- s.recs :: (Builds(pc) && r == pc.r) || r == s.next || s'.recs[r] == s.recs[r])
      && s'.next == (if Allocates(s, t, ok) then s.next + 1 else s.next)
      && (!Builds(pc) && !Allocates(s, t, ok) ==> s'.reqs == s.reqs && s'.recs == s.recs)
  {
    hide AdvanceCall, Allocates;
    CallReqs(s, t, ok);
    CallRecs(s, t, ok);
  }

  /** Which record a call is busy with after a step, and what it has made of its request. */
  lemma CallFocus(s: State, t: nat, ok: bool)
    requires AdvanceCall(s, t, ok).Some?
    ensures var s', pc := AdvanceCall(s, t, ok).value, Pc(s, t);
      && (Builds(Pc(s', t)) ==> if Allocates(s, t, ok) then Pc(s', t).r == s.next else Builds(pc) && Pc(s', t).r == pc.r)
      && (Builds(pc) && pc.q in s.reqs ==> s'.reqs[pc.q].rec == s.reqs[pc.q].rec)
      && (Builds(pc) && pc.r in s.recs ==> s'.recs[pc.r].q == s.recs[pc.r].q)
      && (Pc(s', t).Leaving? && Pc(s', t).errno == Ok ==> pc.Marked? && ok)
      && (Allocates(s, t, ok) ==> s'.recs[s.next].q == pc.q && s'.reqs[pc.q].rec == Some(s.next))
  {
  }

  lemma CallLock(s: State, t: nat, ok: bool)
    requires LockOk(s) && AdvanceCall(s, t, ok).Some?
    ensures LockOk(AdvanceCall(s, t, ok).value)
    ensures Critical(Pc(s, t)) ==> s.lock == ByCall(t) && Current(s) == Pc(s, t)
    ensures Pc(s, t).Entering? ==> s.lock == Free
  {
    CallShape(s, t, ok);
  }

  lemma CallList(s: State, t: nat, ok: bool)
    requires Inv(s) && AdvanceCall(s, t, ok).Some?
    ensures var s' := AdvanceCall(s, t, ok).value; var pc := Pc(s, t);
      && ListOk(s')
      && forall x :: x in s'.list <==> (x in s.list && !(pc.Failed? && x == pc.r)) || (pc.Suspended? && x == pc.r)
  {
    hide RecordOk, Remove, Increasing;
    CallLock(s, t, ok);
    var pc := Pc(s, t);
    if pc.Suspended? {
      NotYetLinked(s, pc);
      AppendIs(s.list, pc.r);
    } else if pc.Failed? {
      RemoveIs(s.list, pc.r);
    }
  }

  lemma NotYetLinked(s: State, pc: CallPc)
    requires Inv(s) && pc == Current(s) && pc.Suspended?
    ensures pc.r !in s.list
  {
    assert RecordOk(s, pc.r);
  }

  lemma OwnRequest(s: State)
    requires Inv(s) && Builds(Current(s))
    ensures Current(s).r in s.recs && Current(s).q in s.reqs
    ensures s.recs[Current(s).r].q == Current(s).q
    ensures Owned(s, Current(s).q) && s.reqs[Current(s).q].rec == Some(Current(s).r)
  {
    assert RecordOk(s, Current(s).r);
  }

  lemma CallRefs(s: State, t: nat, ok: bool)
    requires Inv(s) && AdvanceCall(s, t, ok).Some?
    ensures RefsOk(AdvanceCall(s, t, ok).value)
  {
    hide RecordOk, ListOk, Remove, LockOk, AdvanceCall;
    CallLock(s, t, ok);
    CallShape(s, t, ok);
    CallData(s, t, ok);
    CallFocus(s, t, ok);
    var s', pc := AdvanceCall(s, t, ok).value, Pc(s, t);
    if Builds(pc) { OwnRequest(s); }
    if pc.Holding? && !s.reqs[pc.q].isolated { NoRecordYet(s, pc.q); }
    forall q <- s'.reqs ensures s'.reqs[q] == Request(false, None, 0, 0, 0) || Owned(s', q) {
      assert Owned(s, q) && q != pc.q ==> Owned(s', q);
    }
  }

  lemma CallCreated(s: State, t: nat, ok: bool)
    requires Inv(s) && AdvanceCall(s, t, ok).Some?
    ensures CreatedOk(AdvanceCall(s, t, ok).value)
  {
    hide RecordOk, ListOk, Remove, AdvanceCall, RefsOk;
    CallLock(s, t, ok);
    CallShape(s, t, ok);
    CallReqs(s, t, ok);
    CallFocus(s, t, ok);
    if Pc(s, t).Marked? { OwnRequest(s); }
  }

  /** The record under construction after one more step of its call. */
  lemma CallOwnRecord(s: State, t: nat, ok: bool)
    requires Inv(s) && AdvanceCall(s, t, ok).Some? && Builds(Pc(s, t))
    ensures var s' := AdvanceCall(s, t, ok).value; var n := Pc(s, t).r; n in s'.recs && RecordOk(s', n)
  {
    hide Inv, AdvanceCall, RecordOk;
    var pc := Pc(s, t);
    if pc.Failed? || pc.Unlinked? || pc.Freed? { OwnRecordDown(s, t, ok); } else { OwnRecordUp(s, t, ok); }
  }

  lemma OwnRecordUp(s: State, t: nat, ok: bool)
    requires Inv(s) && AdvanceCall(s, t, ok).Some? && Builds(Pc(s, t))
    requires var pc := Pc(s, t); !pc.Failed? && !pc.Unlinked? && !pc.Freed?
    ensures var s' := AdvanceCall(s, t, ok).value; var n := Pc(s, t).r; n in s'.recs && RecordOk(s', n)
  {
    hide ListOk, Remove, Increasing, LockOk, RefsOk;
    CallLock(s, t, ok);
    CallList(s, t, ok);
    OwnRequest(s);
    assert RecordOk(s, Pc(s, t).r);
  }

  lemma OwnRecordDown(s: State, t: nat, ok: bool)
    requires Inv(s) && AdvanceCall(s, t, ok).Some?
    requires var pc := Pc(s, t); pc.Failed? || pc.Unlinked? || pc.Freed?
    ensures var s' := AdvanceCall(s, t, ok).value; var n := Pc(s, t).r; n in s'.recs && RecordOk(s', n)
  {
    hide ListOk, Remove, Increasing, LockOk, RefsOk;
    CallLock(s, t, ok);
    CallList(s, t, ok);
    OwnRequest(s);
    assert RecordOk(s, Pc(s, t).r);
  }

  lemma CallNewRecord(s: State, t: nat)
    requires Inv(s) && Pc(s, t).Holding? && AdvanceCall(s, t, true).Some? && Allocates(s, t, true)
    ensures RecordOk(AdvanceCall(s, t, true).value, s.next)
  {
    CallLock(s, t, true);
    NoRecordYet(s, Pc(s, t).q);
    assert s.next !in s.list && s.next !in s.workers;
  }

  /** The other records. */
  lemma CallOtherRecord(s: State, t: nat, ok: bool, r: nat)
    requires Inv(s) && AdvanceCall(s, t, ok).Some? && r in s.recs && (Builds(Pc(s, t)) ==> r != Pc(s, t).r)
    ensures RecordOk(AdvanceCall(s, t, ok).value, r)
  {
    hide ListOk, Remove, Increasing, RecordOk, AdvanceCall, LockOk;
    CallLock(s, t, ok);
    CallList(s, t, ok);
    CallShape(s, t, ok);
    CallData(s, t, ok);
    CallFocus(s, t, ok);
    var s', pc := AdvanceCall(s, t, ok).value, Pc(s, t);
    OwnRecord(s, r);
    if Builds(pc) { OwnRequest(s); }
    if pc.Holding? && !s.reqs[pc.q].isolated { NoRecordYet(s, pc.q); }
    RecordFrame(s, s', r);
  }

  lemma AdvanceKeeps(s: State, t: nat, ok: bool)
    requires Inv(s) && AdvanceCall(s, t, ok).Some?
    ensures Inv(AdvanceCall(s, t, ok).value)
  {
    hide RecordOk, LockOk, ListOk, RefsOk, CreatedOk, Remove, Current, AdvanceCall;
    CallData(s, t, ok);
    var s', pc := AdvanceCall(s, t, ok).value, Pc(s, t);
    CallLock(s, t, ok);
    CallList(s, t, ok);
    CallRefs(s, t, ok);
    CallCreated(s, t, ok);
    forall r <- s'.recs ensures RecordOk(s', r) {
      if Builds(pc) && r == pc.r {
        CallOwnRecord(s, t, ok);
      } else if r in s.recs {
        CallOtherRecord(s, t, ok, r);
      } else {
        CallData(s, t, ok);
        CallNewRecord(s, t);
      }
    }
  }

  /** A request that is not isolated, and is not just being isolated, has no record. */
  lemma NoRecordYet(s: State, q: nat)
    requires Inv(s) && q in s.reqs && !s.reqs[q].isolated && !Builds(Current(s))
    ensures s.reqs[q] == Request(false, None, 0, 0, 0) && forall r <- s.recs :: s.recs[r].q != q
  {
    hide ListOk, LockOk;
    forall r <- s.recs ensures s.recs[r].q != q {
      assert RecordOk(s, r);
    }
  }

  // ---------------------------------------------------------------- steps of a worker

  lemma WorkerLock(s: State, r: nat)
    requires LockOk(s) && RunWorker(s, r).Some?
    ensures LockOk(RunWorker(s, r).value) && Current(RunWorker(s, r).value) == Current(s)
  {
  }

  lemma WorkerList(s: State, r: nat)
    requires ListOk(s) && RunWorker(s, r).Some?
    ensures var s' := RunWorker(s, r).value;
      ListOk(s') && forall x :: x in s'.list <==> x in s.list && !(s.workers[r].HasLock? && x == r)
  {
    hide Remove, Increasing;
    if s.workers[r].HasLock? { RemoveIs(s.list, r); }
  }

  lemma WorkerShape(s: State, r: nat)
    requires RunWorker(s, r).Some?
    ensures var s' := RunWorker(s, r).value;
      && s'.calls == s.calls && s'.next == s.next
      && s'.workers.Keys == s.workers.Keys && s'.recs.Keys == s.recs.Keys && s'.reqs.Keys == s.reqs.Keys
      && (forall x <- s.recs :: s'.recs[x].q == s.recs[x].q && (x != r ==> s'.recs[x] == s.recs[x]))
      && (forall q <- s.reqs :: s'.reqs[q].rec == s.reqs[q].rec && (q != s.recs[r].q ==> s'.reqs[q] == s.reqs[q]))
      && (forall x <- s.workers :: x != r ==> s'.workers[x] == s.workers[x])
      && (s.lock != Free && (s.workers[r].Running? || s.workers[r].Returned?) ==> s'.workers[r].Returned?)
  {
  }

  lemma WorkerRefs(s: State, r: nat)
    requires Inv(s) && RunWorker(s, r).Some?
    ensures RefsOk(RunWorker(s, r).value)
  {
    hide ListOk, LockOk, Remove, RecordOk, RunWorker, Current;
    WorkerLock(s, r);
    WorkerShape(s, r);
    HasJob(s, r);
    OwnRecord(s, r);
    var s' := RunWorker(s, r).value;
    forall q <- s'.reqs ensures s'.reqs[q] == Request(false, None, 0, 0, 0) || Owned(s', q) {
      assert Owned(s, q) ==> Owned(s', q);
    }
  }

  lemma WorkerCreated(s: State, r: nat)
    requires Inv(s) && RunWorker(s, r).Some?
    ensures CreatedOk(RunWorker(s, r).value)
  {
    hide ListOk, LockOk, Remove, RecordOk, RunWorker, RefsOk;
    WorkerLock(s, r);
    WorkerShape(s, r);
  }

  lemma HasJob(s: State, r: nat)
    requires RunWorker(s, r).Some?
    ensures r in s.workers && r in s.recs && s.recs[r].q in s.reqs
  {
  }

  lemma WorkerRecord(s: State, r: nat)
    requires Inv(s) && RunWorker(s, r).Some?
    ensures RecordOk(RunWorker(s, r).value, r)
  {
    hide ListOk, LockOk, Remove, Current, RefsOk;
    WorkerLock(s, r);
    WorkerList(s, r);
    assert RecordOk(s, r);
  }

  lemma WorkerOther(s: State, r: nat, other: nat)
    requires Inv(s) && RunWorker(s, r).Some? && other in s.recs && other != r
    ensures other in RunWorker(s, r).value.recs && RecordOk(RunWorker(s, r).value, other)
  {
    hide ListOk, LockOk, Remove, Current, RefsOk, RecordOk;
    WorkerLock(s, r);
    WorkerList(s, r);
    OwnRecord(s, r);
    OwnRecord(s, other);
    RecordFrame(s, RunWorker(s, r).value, other);
  }

  lemma RunKeeps(s: State, r: nat)
    requires Inv(s) && RunWorker(s, r).Some?
    ensures Inv(RunWorker(s, r).value)
  {
    hide RecordOk, Remove, LockOk, ListOk, RefsOk, CreatedOk, Current;
    WorkerLock(s, r);
    WorkerList(s, r);
    WorkerRefs(s, r);
    WorkerCreated(s, r);
    var s' := RunWorker(s, r).value;
    forall x <- s'.recs ensures RecordOk(s', x) {
      if x == r { WorkerRecord(s, r); } else { WorkerOther(s, r, x); }
    }
  }

  /** Every step keeps the invariant. */
  lemma StepKeeps(s: State, a: Action)
    requires Inv(s) && Step(s, a).Some?
    ensures Inv(Step(s, a).value)
  {
    hide Inv, RunWorker, AdvanceCall;
    match a
    case Call(t, q) => CallKeeps(s, t, q);
    case Run(r) => RunKeeps(s, r);
    case Advance(t, ok) => AdvanceKeeps(s, t, ok);
  }

  /** Whatever the schedule. */
  lemma {:induction false} AlwaysInv(qs: set<nat>, schedule: seq<Action>)
    ensures Inv(Exec(Start(qs), schedule))
    decreases |schedule|
  {
    if |schedule| > 0 {
      var before := Exec(Start(qs), schedule[..|schedule| - 1]);
      AlwaysInv(qs, schedule[..|schedule| - 1]);
      if Step(before, schedule[|schedule| - 1]).Some? { StepKeeps(before, schedule[|schedule| - 1]); }
    }
  }

  // ---------------------------------------------------------------- what this means

  /** Whenever the lock is free, the list holds exactly the records whose worker has not yet deleted its record, once
      each, in the order of isolation. */
  lemma ListWhenFree(s: State)
    requires Inv(s) && s.lock == Free
    ensures forall r :: r in s.list <==> r in s.workers && (s.workers[r].Running? || s.workers[r].Returned?)
    ensures Increasing(s.list)
  {
    forall r ensures r in s.list <==> r in s.workers && (s.workers[r].Running? || s.workers[r].Returned?) {
      assert r in s.list ==> r in s.recs;
      assert r in s.recs ==> RecordOk(s, r);
    }
  }

  /** No callback runs twice, no connection is resumed twice, no record is unlinked or freed twice, and no two records
      are ever made for one request. */
  lemma AtMostOnce(s: State)
    requires Inv(s)
    ensures forall q <- s.reqs :: s.reqs[q].callbacks <= 1 && s.reqs[q].resumes <= s.reqs[q].suspends <= 1
    ensures forall r <- s.recs :: s.recs[r].unlinks <= 1 && s.recs[r].frees <= s.recs[r].unlinks
    ensures forall r1, r2 :: r1 in s.recs && r2 in s.recs && s.recs[r1].q == s.recs[r2].q ==> r1 == r2
  {
    forall q <- s.reqs ensures s.reqs[q].callbacks <= 1 && s.reqs[q].resumes <= s.reqs[q].suspends <= 1 {
      assert Owned(s, q) ==> RecordOk(s, s.reqs[q].rec.value);
    }
    forall r <- s.recs ensures s.recs[r].unlinks <= 1 && s.recs[r].frees <= s.recs[r].unlinks { assert RecordOk(s, r); }
    forall r1, r2 | r1 in s.recs && r2 in s.recs && s.recs[r1].q == s.recs[r2].q ensures r1 == r2 {
      OwnRecord(s, r1);
      OwnRecord(s, r2);
    }
  }

  /** A worker that is done has run its callback, unlinked and freed its record and resumed its connection, each
      exactly once; and a record is freed only after all the rest. */
  lemma Completion(s: State, r: nat)
    requires Inv(s) && r in s.workers
    ensures r in s.recs && s.recs[r].q in s.reqs
    ensures var q := s.recs[r].q; s.workers[r].Done? <==>
              s.recs[r].frees == 1 && s.recs[r].unlinks == 1 && s.reqs[q].callbacks == 1 && s.reqs[q].resumes == 1
    ensures s.recs[r].frees == 1 ==> s.workers[r].Done? && r !in s.list
  {
    assert RecordOk(s, r);
  }

  /** In which order things happen to a record and its request, whatever is interleaved. On the way up: the connection
      is suspended before the record is in the list, and the record is in the list before the request is marked. In the
      worker: the callback, the unlinking, the lock given back, the resumption, the release of the record. On the way
      down from a failed creation: the unlinking, the release of the record, the resumption. */
  lemma OrderOfEffects(s: State, r: nat)
    requires Inv(s) && r in s.recs
    ensures s.recs[r].q in s.reqs
    ensures var rec, req := s.recs[r], s.reqs[s.recs[r].q];
      && (r in s.list ==> req.suspends == 1 && req.resumes == 0)
      && (req.isolated ==> req.suspends == 1 && (r in s.list || rec.unlinks == 1))
      && (r in s.workers ==>
            && req.isolated
            && (rec.unlinks == 1 ==> req.callbacks == 1)
            && (req.resumes == 1 ==> rec.unlinks == 1 && s.lock != ByWorker(r))
            && (rec.frees == 1 ==> req.resumes == 1))
      && (r !in s.workers ==>
            && req.callbacks == 0
            && (rec.frees == 1 ==> rec.unlinks == 1)
            && (req.resumes == 1 ==> rec.frees == 1))
  {
    assert RecordOk(s, r);
  }

  /** The record of a request is neither unlinked nor freed. */
  predicate Untouched(s: State, q: nat) {
    && q in s.reqs && s.reqs[q].rec.Some? && s.reqs[q].rec.value in s.recs
    && var rec := s.recs[s.reqs[q].rec.value]; rec.frees == 0 && rec.unlinks == 0
  }

  /** While the call that created a worker holds the lock, that worker has neither unlinked nor freed the record. */
  lemma NotFreedUnderCreator(s: State, q: nat)
    requires Inv(s) && s.lock.ByCall? && Pc(s, s.lock.t) == Leaving(q, Ok)
    ensures Untouched(s, q)
  {
    assert Owned(s, q);
    assert RecordOk(s, s.reqs[q].rec.value);
  }

  /** The records an action reads or writes: its own, and the whole list when it appends or deletes. */
  ghost function Touched(s: State, a: Action): set<nat> {
    match a
    case Call(_, _) => {}
    case Advance(t, _) =>
      var pc := Pc(s, t);
      (if Builds(pc) && !pc.Freed? then {pc.r} else {})
      + (if pc.Suspended? || pc.Failed? then set x | x in s.list else {})
    case Run(r) =>
      {r} + (if r in s.workers && s.workers[r].HasLock? then set x | x in s.list else {})
  }

  /** No action touches a freed record; a deletion finds its record in the list. */
  lemma NoUseAfterFree(s: State, a: Action)
    requires Inv(s) && Step(s, a).Some?
    ensures forall r <- Touched(s, a) :: r in s.recs && s.recs[r].frees == 0
    ensures a.Advance? && Pc(s, a.t).Failed? ==> Pc(s, a.t).r in s.list
    ensures a.Run? && s.workers[a.r].HasLock? ==> a.r in s.list
  {
    if a.Advance? {
      CallLock(s, a.t, a.ok);
      if Builds(Pc(s, a.t)) { assert RecordOk(s, Pc(s, a.t).r); }
    }
    if a.Run? { assert RecordOk(s, a.r); }
    forall r <- s.list ensures r in s.recs && s.recs[r].frees == 0 { assert RecordOk(s, r); }
  }

  predicate CanGoOn(s: State) {
    && (s.lock.ByCall? ==> Step(s, Advance(s.lock.t, true)).Some?)
    && (s.lock.ByWorker? ==> Step(s, Run(s.lock.r)).Some?)
    && (s.lock == Free ==> forall t <- s.calls :: !s.calls[t].Idle? ==> Step(s, Advance(t, true)).Some?)
    && (s.lock == Free ==> forall r <- s.workers :: !s.workers[r].Done? ==> Step(s, Run(r)).Some?)
  }

  /** The holder of the lock can always go on; and when nobody holds it, everyone who is not finished can. */
  lemma NoDeadlock(s: State)
    requires Inv(s)
    ensures CanGoOn(s)
  {
    hide ListOk, CreatedOk;
    if s.lock.ByCall? && Builds(Current(s)) { OwnRequest(s); }
    if s.lock.ByWorker? { OwnRecord(s, s.lock.r); }
    forall r <- s.workers ensures s.recs[r].q in s.reqs { OwnRecord(s, r); }
  }

  /** When the thread of a request could not be created, its callback never runs, although the request stays marked as
      isolated and every later attempt is refused. */
  lemma {:induction false} NeverAfterFailure(s: State, r: nat, schedule: seq<Action>)
    requires Inv(s) && r in s.recs && StageOf(s, r) == Abandoned
    ensures var e := Exec(s, schedule);
      && Inv(e) && r in e.recs && StageOf(e, r) == Abandoned && e.recs[r] == s.recs[r]
      && s.recs[r].q in e.reqs && e.reqs[s.recs[r].q] == Request(true, Some(r), 1, 1, 0)
    decreases |schedule|
  {
    hide Inv, Step, StageOf;
    AbandonedIs(s, r);
    if |schedule| > 0 {
      var n := |schedule| - 1;
      var before := Exec(s, schedule[..n]);
      NeverAfterFailure(s, r, schedule[..n]);
      if Step(before, schedule[n]).Some? { AbandonedStays(before, schedule[n], r); }
    }
  }

  lemma AbandonedStays(s: State, a: Action, r: nat)
    requires Inv(s) && Step(s, a).Some? && r in s.recs && StageOf(s, r) == Abandoned
    ensures var s' := Step(s, a).value;
      Inv(s') && r in s'.recs && StageOf(s', r) == Abandoned && s'.recs[r] == s.recs[r]
      && s.recs[r].q in s'.reqs && s'.reqs[s.recs[r].q] == Request(true, Some(r), 1, 1, 0)
  {
    hide ListOk, RecordOk;
    var s' := Step(s, a).value;
    StepKeeps(s, a);
    match a {
      case Call(_, _) =>
      case Advance(t, ok) =>
        CallLock(s, t, ok);
        CallShape(s, t, ok);
        CallData(s, t, ok);
        CallFocus(s, t, ok);
      case Run(w) =>
        WorkerLock(s, w);
        WorkerShape(s, w);
    }
    AbandonedIs(s', r);
  }

  lemma AbandonedIs(s: State, r: nat)
    requires Inv(s) && r in s.recs && StageOf(s, r) == Abandoned
    ensures s.recs[r].q in s.reqs && s.reqs[s.recs[r].q] == Request(true, Some(r), 1, 1, 0)
    ensures s.recs[r].unlinks == 1 && s.recs[r].frees == 1 && r !in s.list
  {
    assert RecordOk(s, r);
  }

  /** All of it, over all schedules from a fresh server. */
  lemma ProtocolIsSafe(qs: set<nat>, schedule: seq<Action>)
    ensures var e := Exec(Start(qs), schedule);
      && (e.lock == Free ==> Increasing(e.list))
      && (e.lock == Free ==> forall r :: r in e.list <==> r in e.workers && (e.workers[r].Running? || e.workers[r].Returned?))
      && (forall q <- e.reqs :: e.reqs[q].callbacks <= 1 && e.reqs[q].resumes <= e.reqs[q].suspends <= 1)
      && (forall r <- e.recs :: e.recs[r].unlinks <= 1 && e.recs[r].frees <= e.recs[r].unlinks)
      && (forall r <- e.workers :: e.workers[r].Done? ==>
           r in e.recs && e.recs[r].q in e.reqs && e.recs[r].frees == 1 && e.reqs[e.recs[r].q].callbacks == 1
           && e.reqs[e.recs[r].q].resumes == 1)
      && (forall r1, r2 :: r1 in e.recs && r2 in e.recs && e.recs[r1].q == e.recs[r2].q ==> r1 == r2)
      && (forall a :: Step(e, a).Some? ==> forall r <- Touched(e, a) :: r in e.recs && e.recs[r].frees == 0)
      && (forall q :: e.lock.ByCall? && Pc(e, e.lock.t) == Leaving(q, Ok) ==> Untouched(e, q))
      && CanGoOn(e)
  {
    hide Inv, Step, Touched, CanGoOn, Untouched;
    AlwaysInv(qs, schedule);
    var e := Exec(Start(qs), schedule);
    AtMostOnce(e);
    if e.lock == Free { ListWhenFree(e); }
    forall r <- e.workers ensures r in e.recs && e.recs[r].q in e.reqs && (e.workers[r].Done? ==>
        e.recs[r].frees == 1 && e.reqs[e.recs[r].q].callbacks == 1 && e.reqs[e.recs[r].q].resumes == 1)
    {
      Completion(e, r);
    }
    forall a | Step(e, a).Some? ensures forall r <- Touched(e, a) :: r in e.recs && e.recs[r].frees == 0 {
      NoUseAfterFree(e, a);
    }
    forall q | e.lock.ByCall? && Pc(e, e.lock.t) == Leaving(q, Ok) ensures Untouched(e, q) {
      NotFreedUnderCreator(e, q);
    }
    NoDeadlock(e);
  }

  // ---------------------------------------------------------------- after a failed thread creation

  /** The steps thread `t` takes in a schedule. */
  function Taken(schedule: seq<Action>, t: nat): nat {
    if |schedule| == 0 then 0
    else Taken(schedule[..|schedule| - 1], t) + if IsStepOf(schedule[|schedule| - 1], t) then 1 else 0
  }

  predicate IsStepOf(a: Action, t: nat) {
    a.Advance? && a.t == t
  }

  /** The call of `t` takes record `r` down again, and has done `k` steps since its thread creation failed: it unlinks
      the record, frees it, resumes the connection and releases the lock. */
  ghost predicate TakenDown(s: State, t: nat, r: nat, k: nat) {
    var pc := Pc(s, t);
    if k == 0 then pc.Failed? && pc.r == r
    else if k == 1 then pc.Unlinked? && pc.r == r
    else if k == 2 then pc.Freed? && pc.r == r
    else
      && r in s.recs && StageOf(s, r) == Abandoned
      && (k == 3 ==> pc.Leaving? && pc.errno == Again)
      && (k == 4 ==> !Critical(pc))
  }

  lemma Underway(s: State, t: nat)
    requires Inv(s) && Builds(Pc(s, t))
    ensures var pc := Pc(s, t);
      s.lock == ByCall(t) && pc.q in s.reqs && pc.r in s.recs && pc.r !in s.workers
  {
    hide ListOk, RefsOk, CreatedOk;
    OwnCall(s, t);
    OwnRequest(s);
    assert RecordOk(s, Pc(s, t).r);
  }

  lemma OwnCall(s: State, t: nat)
    requires LockOk(s) && Critical(Pc(s, t))
    ensures s.lock == ByCall(t) && Current(s) == Pc(s, t)
  {
  }

  /** The next step of a call that takes its record down. */
  lemma DownStep(s: State, t: nat, r: nat, ok: bool, k: nat)
    requires TakenDown(s, t, r, k) && k <= 2 && s.lock == ByCall(t)
    requires var pc := Pc(s, t); pc.q in s.reqs && pc.r in s.recs && pc.r !in s.workers
    ensures AdvanceCall(s, t, ok).Some? && TakenDown(AdvanceCall(s, t, ok).value, t, r, k + 1)
  {
  }

  lemma LeaveStep(s: State, t: nat, ok: bool)
    requires Pc(s, t).Leaving?
    ensures AdvanceCall(s, t, ok).Some? && Pc(AdvanceCall(s, t, ok).value, t).Idle?
  {
  }

  lemma OwnDownStep(s: State, t: nat, r: nat, ok: bool, k: nat)
    requires Inv(s) && TakenDown(s, t, r, k)
    ensures k <= 3 ==> AdvanceCall(s, t, ok).Some?
    ensures var s' := AdvanceCall(s, t, ok); s'.Some? ==> Inv(s'.value) && TakenDown(s'.value, t, r, k + 1)
    ensures AdvanceCall(s, t, ok).None? && k > 3 ==> TakenDown(s, t, r, k + 1)
  {
    hide Inv, AdvanceCall, StageOf;
    if k <= 2 {
      Underway(s, t);
      DownStep(s, t, r, ok, k);
      StepKeeps(s, Advance(t, ok));
    } else {
      if k == 3 { LeaveStep(s, t, ok); }
      if AdvanceCall(s, t, ok).Some? { AbandonedStays(s, Advance(t, ok), r); }
    }
  }

  lemma OtherDownStep(s: State, a: Action, t: nat, r: nat, k: nat)
    requires Inv(s) && TakenDown(s, t, r, k) && Step(s, a).Some? && !IsStepOf(a, t)
    ensures Inv(Step(s, a).value) && TakenDown(Step(s, a).value, t, r, k)
  {
    hide Inv, StageOf;
    OtherPlace(s, a, t);
    if k <= 2 { StepKeeps(s, a); } else { AbandonedStays(s, a, r); }
  }

  lemma OtherPlace(s: State, a: Action, t: nat)
    requires Step(s, a).Some? && !IsStepOf(a, t)
    ensures Pc(Step(s, a).value, t) == Pc(s, t) || (Pc(s, t).Idle? && Pc(Step(s, a).value, t).Entering?)
  {
    hide AdvanceCall, RunWorker;
    match a
    case Call(_, _) =>
    case Advance(u, ok) => CallPlace(s, u, ok);
    case Run(w) => WorkerShape(s, w);
  }

  /** Whatever else happens in between, the call takes its record down step by step. */
  lemma {:induction false} GoesDown(s: State, t: nat, r: nat, schedule: seq<Action>)
    requires Inv(s) && TakenDown(s, t, r, 0)
    ensures Inv(Exec(s, schedule)) && TakenDown(Exec(s, schedule), t, r, Taken(schedule, t))
    decreases |schedule|
  {
    hide Inv, TakenDown, AdvanceCall, RunWorker;
    if |schedule| > 0 {
      var n := |schedule| - 1;
      var before, a, k := Exec(s, schedule[..n]), schedule[n], Taken(schedule[..n], t);
      GoesDown(s, t, r, schedule[..n]);
      if IsStepOf(a, t) {
        OwnDownStep(before, t, r, a.ok, k);
      } else if Step(before, a).Some? {
        OtherDownStep(before, a, t, r, k);
      }
    }
  }

  /** Every failed thread creation leads to an abandoned request, under any schedule in which the call goes on: after
      three more steps of its thread the record is unlinked, freed and given up with the request still marked, and
      after the fourth the call no longer holds the lock. */
  lemma FailureAbandons(s: State, t: nat, schedule: seq<Action>)
    requires Inv(s) && Pc(s, t).Marked?
    ensures Step(s, Advance(t, false)).Some?
    ensures var e := Exec(Step(s, Advance(t, false)).value, schedule); var r := Pc(s, t).r;
      && Inv(e)
      && (Taken(schedule, t) >= 3 ==>
            && r in e.recs && StageOf(e, r) == Abandoned && e.recs[r].unlinks == 1 && e.recs[r].frees == 1
            && e.recs[r].q in e.reqs && e.reqs[e.recs[r].q] == Request(true, Some(r), 1, 1, 0))
      && (Taken(schedule, t) == 4 ==> e.lock != ByCall(t))
  {
    hide Inv, Exec, StageOf, Taken;
    var s' := Step(s, Advance(t, false)).value;
    StepKeeps(s, Advance(t, false));
    GoesDown(s', t, Pc(s, t).r, schedule);
    var e := Exec(s', schedule);
    if e.lock == ByCall(t) { HolderIsCritical(e, t); }
    if Taken(schedule, t) >= 3 { AbandonedIs(e, Pc(s, t).r); }
  }

  lemma HolderIsCritical(s: State, t: nat)
    requires Inv(s) && s.lock == ByCall(t)
    ensures Critical(Pc(s, t))
  {
  }

  // ---------------------------------------------------------------- the callback

  /** The steps the worker of a record is given in a schedule. */
  function Runs(schedule: seq<Action>, r: nat): nat {
    if |schedule| == 0 then 0
    else Runs(schedule[..|schedule| - 1], r) + if schedule[|schedule| - 1] == Run(r) then 1 else 0
  }

  /** The worker of a record has been created; its callback has run unless it has not taken a step. */
  ghost predicate Employed(s: State, r: nat, ran: bool) {
    && r in s.workers && r in s.recs
    && (ran ==> !s.workers[r].Running?)
    && (!ran ==> s.workers[r].Running?)
  }

  lemma EmployedStep(s: State, a: Action, r: nat, ran: bool)
    requires Inv(s) && Employed(s, r, ran)
    ensures var s' := Step(s, a);
      if a == Run(r) && !ran then s'.Some? && Employed(s'.value, r, true)
      else s'.Some? ==> Employed(s'.value, r, ran)
  {
    hide Inv, AdvanceCall, RunWorker;
    match a
    case Call(_, _) =>
    case Advance(t, ok) =>
      if AdvanceCall(s, t, ok).Some? {
        CallOthers(s, t, ok);
        CallData(s, t, ok);
        CreatesOnce(s, t, r);
      }
    case Run(w) =>
      if w == r { WorkerGoesOn(s, r); }
      if RunWorker(s, w).Some? { WorkerShape(s, w); }
  }

  /** A call about to create a worker creates one for a record that has none. */
  lemma CreatesOnce(s: State, t: nat, r: nat)
    requires Inv(s) && r in s.workers
    ensures Pc(s, t).Marked? ==> Pc(s, t).r != r
  {
    hide Inv;
    if Pc(s, t).Marked? { Underway(s, t); }
  }

  lemma WorkerGoesOn(s: State, r: nat)
    requires Inv(s) && r in s.workers
    ensures s.workers[r].Running? ==> RunWorker(s, r).Some?
    ensures RunWorker(s, r).Some? ==> !RunWorker(s, r).value.workers[r].Running?
  {
    hide ListOk, LockOk, CreatedOk;
    assert RecordOk(s, r);
  }

  lemma {:induction false} StaysEmployed(s: State, r: nat, schedule: seq<Action>)
    requires Inv(s) && Employed(s, r, false)
    ensures Inv(Exec(s, schedule)) && Employed(Exec(s, schedule), r, Runs(schedule, r) > 0)
    decreases |schedule|
  {
    hide Inv, Employed, Step;
    if |schedule| > 0 {
      var n := |schedule| - 1;
      var before := Exec(s, schedule[..n]);
      StaysEmployed(s, r, schedule[..n]);
      EmployedStep(before, schedule[n], r, Runs(schedule[..n], r) > 0);
      if Step(before, schedule[n]).Some? { StepKeeps(before, schedule[n]); }
    }
  }

  lemma Callbacks(s: State, r: nat, ran: bool)
    requires Inv(s) && Employed(s, r, ran)
    ensures s.recs[r].q in s.reqs && s.reqs[s.recs[r].q].rec == Some(r)
    ensures s.reqs[s.recs[r].q].callbacks == (if ran then 1 else 0) && s.reqs[s.recs[r].q].isolated
  {
    assert RecordOk(s, r);
  }

  lemma NoCallbacks(s: State, t: nat, r: nat, k: nat)
    requires Inv(s) && TakenDown(s, t, r, k)
    ensures r in s.recs && s.recs[r].q in s.reqs && s.reqs[s.recs[r].q].callbacks == 0
    ensures s.reqs[s.recs[r].q].isolated
  {
    hide ListOk, LockOk, CreatedOk;
    if k <= 2 {
      Underway(s, t);
      OwnCall(s, t);
      OwnRequest(s);
    }
    assert RecordOk(s, r);
  }

  /** Which record belongs to a request stays the same. */
  lemma {:induction false} SameOwner(s: State, r: nat, schedule: seq<Action>)
    requires Inv(s) && r in s.recs
    ensures Inv(Exec(s, schedule)) && r in Exec(s, schedule).recs && Exec(s, schedule).recs[r].q == s.recs[r].q
    decreases |schedule|
  {
    hide Inv, Step;
    if |schedule| > 0 {
      var n := |schedule| - 1;
      var before := Exec(s, schedule[..n]);
      SameOwner(s, r, schedule[..n]);
      if Step(before, schedule[n]).Some? {
        StepKeeps(before, schedule[n]);
        OwnerStep(before, schedule[n], r);
      }
    }
  }

  lemma OwnerStep(s: State, a: Action, r: nat)
    requires Inv(s) && Step(s, a).Some? && r in s.recs
    ensures r in Step(s, a).value.recs && Step(s, a).value.recs[r].q == s.recs[r].q
  {
    hide RecordOk, LockOk, ListOk, CreatedOk, AdvanceCall, RunWorker;
    match a
    case Call(_, _) =>
    case Advance(t, ok) =>
      CallData(s, t, ok);
      CallFocus(s, t, ok);
    case Run(w) => WorkerShape(s, w);
  }

  /** The callback of a request that has been marked runs, once, if and only if its thread could be created and has
      taken a step: under every schedule from there on, and whatever the other calls and workers do. */
  lemma CallbackIff(s: State, t: nat, ok: bool, schedule: seq<Action>)
    requires Inv(s) && Pc(s, t).Marked?
    ensures Step(s, Advance(t, ok)).Some?
    ensures var e := Exec(Step(s, Advance(t, ok)).value, schedule); var q, r := Pc(s, t).q, Pc(s, t).r;
      && Inv(e) && q in e.reqs && e.reqs[q].rec == Some(r) && e.reqs[q].isolated
      && e.reqs[q].callbacks == if ok && Runs(schedule, r) > 0 then 1 else 0
  {
    hide Inv, Exec, Runs, Taken, TakenDown, Employed, StageOf;
    var q, r := Pc(s, t).q, Pc(s, t).r;
    Creation(s, t, ok);
    var s' := Step(s, Advance(t, ok)).value;
    StepKeeps(s, Advance(t, ok));
    SameOwner(s', r, schedule);
    var e := Exec(s', schedule);
    if ok {
      StaysEmployed(s', r, schedule);
      Callbacks(e, r, Runs(schedule, r) > 0);
    } else {
      GoesDown(s', t, r, schedule);
      NoCallbacks(e, t, r, Taken(schedule, t));
    }
    OwnRecordIs(e, r);
  }

  /** What the creation of the thread leads to. */
  lemma Creation(s: State, t: nat, ok: bool)
    requires Inv(s) && Pc(s, t).Marked?
    ensures var r := Pc(s, t).r; r in s.recs && s.recs[r].q == Pc(s, t).q && Step(s, Advance(t, ok)).Some?
    ensures var s', r := Step(s, Advance(t, ok)).value, Pc(s, t).r;
      && r in s'.recs && s'.recs[r].q == Pc(s, t).q
      && if ok then Employed(s', r, false) else TakenDown(s', t, r, 0)
  {
    hide ListOk, RefsOk, CreatedOk, RecordOk;
    Underway(s, t);
    OwnCall(s, t);
    OwnRequest(s);
  }

  lemma OwnRecordIs(s: State, r: nat)
    requires Inv(s) && r in s.recs
    ensures s.recs[r].q in s.reqs && s.reqs[s.recs[r].q].rec == Some(r)
  {
    assert RecordOk(s, r);
  }

  // ---------------------------------------------------------------- what a call reports

  /** What a call leaves the critical section with, and exactly when: that the request is isolated already, which it
      finds when it holds the lock; want of memory, when the request is not and the record cannot be allocated; success,
      when the thread is created; and a refusal to be tried again, once everything has been taken back. */
  lemma LeavesWith(s: State, a: Action, t: nat, q: nat, e: Errno)
    requires Step(s, a).Some? && !Pc(s, t).Leaving?
    ensures Pc(Step(s, a).value, t) == Leaving(q, e) <==>
              && a.Advance? && a.t == t
              && match e
                 case Already => Pc(s, t) == Holding(q) && q in s.reqs && s.reqs[q].isolated
                 case NoMemory => Pc(s, t) == Holding(q) && q in s.reqs && !s.reqs[q].isolated && !a.ok
                 case Ok => Pc(s, t).Marked? && Pc(s, t).q == q && a.ok
                 case Again => Pc(s, t).Freed? && Pc(s, t).q == q
  {
    hide AdvanceCall, RunWorker;
    OwnStepsOnly(s, a, t);
    if a.Advance? && a.t == t { OwnLeave(s, t, a.ok, q, e); }
  }

  /** A call is where it was unless the step is its own. */
  lemma OwnStepsOnly(s: State, a: Action, t: nat)
    requires Step(s, a).Some?
    ensures !(a.Advance? && a.t == t) ==>
              Pc(Step(s, a).value, t) == if a.Call? && a.t == t then Entering(a.q) else Pc(s, t)
  {
    hide AdvanceCall, RunWorker;
    match a
    case Call(_, _) =>
    case Advance(u, ok) => if u != t { StepOfOther(s, u, ok, t); }
    case Run(r) => RunKeepsPlaces(s, r);
  }

  lemma StepOfOther(s: State, u: nat, ok: bool, t: nat)
    requires u != t && AdvanceCall(s, u, ok).Some?
    ensures Pc(AdvanceCall(s, u, ok).value, t) == Pc(s, t)
  {
  }

  lemma RunKeepsPlaces(s: State, r: nat)
    requires RunWorker(s, r).Some?
    ensures RunWorker(s, r).value.calls == s.calls
    ensures forall q <- s.reqs ::
              q in RunWorker(s, r).value.reqs && RunWorker(s, r).value.reqs[q].isolated == s.reqs[q].isolated
  {
  }

  lemma OwnLeave(s: State, t: nat, ok: bool, q: nat, e: Errno)
    requires AdvanceCall(s, t, ok).Some? && !Pc(s, t).Leaving?
    ensures Pc(AdvanceCall(s, t, ok).value, t) == Leaving(q, e) <==>
              match e
              case Already => Pc(s, t) == Holding(q) && q in s.reqs && s.reqs[q].isolated
              case NoMemory => Pc(s, t) == Holding(q) && q in s.reqs && !s.reqs[q].isolated && !ok
              case Ok => Pc(s, t).Marked? && Pc(s, t).q == q && ok
              case Again => Pc(s, t).Freed? && Pc(s, t).q == q
  {
  }

  /** The request is isolated, and the call is not the one that isolates it. */
  ghost predicate TooLate(s: State, t: nat, q: nat) {
    && q in s.reqs && s.reqs[q].isolated
    && !(Builds(Pc(s, t)) && Pc(s, t).q == q)
    && forall e :: Pc(s, t) == Leaving(q, e) ==> e == Already
  }

  lemma StillTooLate(s: State, a: Action, t: nat, q: nat)
    requires TooLate(s, t, q) && Step(s, a).Some?
    ensures TooLate(Step(s, a).value, t, q)
  {
    hide AdvanceCall, RunWorker;
    StaysIsolated(s, a, q);
    OwnStepsOnly(s, a, t);
    if a.Advance? && a.t == t { OwnStaysLate(s, t, a.ok, q); }
  }

  lemma StaysIsolated(s: State, a: Action, q: nat)
    requires Step(s, a).Some? && q in s.reqs && s.reqs[q].isolated
    ensures q in Step(s, a).value.reqs && Step(s, a).value.reqs[q].isolated
  {
    hide AdvanceCall, RunWorker;
    match a
    case Call(_, _) =>
    case Advance(t, ok) => AdvanceStaysIsolated(s, t, ok, q);
    case Run(r) => RunKeepsPlaces(s, r);
  }

  lemma AdvanceStaysIsolated(s: State, t: nat, ok: bool, q: nat)
    requires AdvanceCall(s, t, ok).Some? && q in s.reqs && s.reqs[q].isolated
    ensures q in AdvanceCall(s, t, ok).value.reqs && AdvanceCall(s, t, ok).value.reqs[q].isolated
  {
  }

  lemma OwnStaysLate(s: State, t: nat, ok: bool, q: nat)
    requires TooLate(s, t, q) && AdvanceCall(s, t, ok).Some?
    ensures var pc := Pc(AdvanceCall(s, t, ok).value, t);
      !(Builds(pc) && pc.q == q) && forall e :: pc == Leaving(q, e) ==> e == Already
  {
  }

  /** A second isolation reports that there has been one, and nothing else: once a request is isolated, every call on it
      that has not got its record yet can only leave with `Already`, under every schedule from there on. */
  lemma {:induction false} SecondIsolation(s: State, t: nat, q: nat, schedule: seq<Action>)
    requires q in s.reqs && s.reqs[q].isolated && (Pc(s, t).Idle? || Pc(s, t).Entering? || Pc(s, t).Holding?)
    ensures var s' := Exec(s, schedule);
      TooLate(s', t, q) && !(Pc(s', t) == Leaving(q, NoMemory)) && !(Pc(s', t) == Leaving(q, Ok))
    decreases |schedule|
  {
    hide Step;
    if |schedule| > 0 {
      var n := |schedule| - 1;
      SecondIsolation(s, t, q, schedule[..n]);
      var before := Exec(s, schedule[..n]);
      if Step(before, schedule[n]).Some? { StillTooLate(before, schedule[n], t, q); }
    }
  }

  // ---------------------------------------------------------------- reaching the attempt at a thread

  /** Every request of a fresh server can get there: one call and five steps of it. */
  lemma ReachesMarked(qs: set<nat>, q: nat, t: nat)
    requires q in qs
    ensures var a := Advance(t, true); Pc(Exec(Start(qs), [Call(t, q), a, a, a, a, a]), t) == Marked(q, 0)
  {
    hide Exec;
    var a := Advance(t, true);
    var h := [Call(t, q)];
    var s0 := Start(qs);
    Snoc(s0, [], Call(t, q));
    Snoc(s0, h, a);
    Snoc(s0, h + [a], a);
    Snoc(s0, h + [a] + [a], a);
    Snoc(s0, h + [a] + [a] + [a], a);
    Snoc(s0, h + [a] + [a] + [a] + [a], a);
    assert [] + h == h && h + [a] + [a] + [a] + [a] + [a] == [Call(t, q), a, a, a, a, a];
  }

  lemma Snoc(s: State, schedule: seq<Action>, a: Action)
    ensures schedule == [] ==> Exec(s, schedule) == s
    ensures var d := Step(Exec(s, schedule), a);
      Exec(s, schedule + [a]) == if d.Some? then d.value else Exec(s, schedule)
  {
    assert (schedule + [a])[..|schedule|] == schedule;
  }
}
