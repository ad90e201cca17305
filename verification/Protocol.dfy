// internal/server: the protocol between write handlers, manual syncs, the sync loop and
// those who edit the node themselves, from a committed write to a node that mirrors it.
module Protocol {
  import opened Options
  import opened Users
  import opened Configs
  import opened Diff
  import opened DiffTheory
  import opened Telemt
  import opened Sync
  import opened OpLoop
  import opened SyncTheory
  import opened Store

  // ---- A run and its status ----

  datatype SyncStatus = SyncStatus(mode: string, creates: nat, patches: nat, deletes: nat,
                                   applied: nat, failed: nat, aborted: bool, error: SyncError)

  // What a call of SyncNode did and gave back.
  datatype Outcome = Outcome(run: seq<Session>, res: Result, end: Ending)

  predicate Performs(opts: SyncOptions, desired: Option<seq<DesiredUser>>, o: Outcome) {
    match desired
    case None => o.run == [] && o.res == EMPTY_RESULT
    case Some(des) => Accounts(des, opts, o.run, o.res, o.end)
  }

  function ErrorOfRun(desired: Option<seq<DesiredUser>>, o: Outcome): SyncError {
    if desired.None? then DesiredFailed else ErrorOf(o.end)
  }

  function StatusOf(opts: SyncOptions, desired: Option<seq<DesiredUser>>, o: Outcome): SyncStatus {
    SyncStatus(opts.mode, CountOps(o.res.ops, OpCreate), CountOps(o.res.ops, OpPatch), CountOps(o.res.ops, OpDelete),
               o.res.applied, o.res.failed, o.res.aborted, ErrorOfRun(desired, o))
  }

  predicate Clean(st: SyncStatus) {
    st.error == NoError && !st.aborted && st.failed == 0 && st.mode != SHADOW
  }

  // The run applied everything and left its node converged.
  predicate Succeeds(opts: SyncOptions, desired: Option<seq<DesiredUser>>, o: Outcome) {
    && desired.Some? && o.run != [] && o.res.applied == |o.res.ops|
    && Converged(desired.value, Prefix(opts), End(o.run[|o.run| - 1]))
  }

  lemma CleanStatus(opts: SyncOptions, desired: Option<seq<DesiredUser>>, o: Outcome)
    requires Performs(opts, desired, o) && Clean(StatusOf(opts, desired, o))
    requires desired.Some? ==> DistinctDesired(desired.value)
    ensures Succeeds(opts, desired, o)
  {
    Serialisable(desired.value, opts, o.run, o.res);
  }

  // Conversely, a run in apply mode that nobody else writes into, that has every call
  // delivered, gets its listing and is not aborted, has a clean status if and only if it
  // does not have to delete the node's last user.
  lemma CalmIsClean(opts: SyncOptions, des: seq<DesiredUser>, o: Outcome)
    requires DistinctDesired(des) && Performs(opts, Some(des), o)
    requires forall s :: s in o.run ==> NoForeign(s.calls) && AllDelivered(s.calls)
    requires opts.mode != SHADOW && Attempts(opts) >= 1 && o.end != Unlisted && o.end != Aborted
    ensures |o.run| == 1
    ensures Clean(StatusOf(opts, Some(des), o)) <==> !WouldEmpty(des, Prefix(opts), o.run[0].listed)
  {
    CalmRun(des, opts, o.run, o.res, o.end);
    Accounting(des, opts, o.run, o.res, o.end);
  }

  predicate IsOf(op: SyncOp, kind: OpKind) {
    match kind
    case OpCreate => op.Create?
    case OpPatch => op.Patch?
    case OpDelete => op.Delete?
  }

  function OfKind(ops: seq<SyncOp>, kind: OpKind): set<nat> { set i: nat | i < |ops| && IsOf(ops[i], kind) }

  lemma OfKindSnoc(ops: seq<SyncOp>, kind: OpKind)
    requires ops != []
    ensures |OfKind(ops, kind)| == |OfKind(ops[..|ops| - 1], kind)| + if IsOf(ops[|ops| - 1], kind) then 1 else 0
  {
    var front, n := ops[..|ops| - 1], |ops| - 1;
    forall i: nat
      ensures i in OfKind(ops, kind) <==> i in OfKind(front, kind) || (i == n && IsOf(ops[n], kind))
    {
      assert i < n ==> front[i] == ops[i];
    }
    assert OfKind(ops, kind) == OfKind(front, kind) + if IsOf(ops[n], kind) then {n} else {};
  }

  // Each published count is the number of operations of its kind.
  lemma {:induction false} KindsAreCounted(ops: seq<SyncOp>, kind: OpKind)
    ensures CountOps(ops, kind) == |OfKind(ops, kind)|
  {
    if ops != [] {
      KindsAreCounted(ops[..|ops| - 1], kind);
      OfKindSnoc(ops, kind);
    }
  }

  // The published counts cover the operations of the run.
  lemma {:induction false} KindsAddUp(ops: seq<SyncOp>)
    ensures CountOps(ops, OpCreate) + CountOps(ops, OpPatch) + CountOps(ops, OpDelete) == |ops|
  {
    if ops != [] {
      KindsAddUp(ops[..|ops| - 1]);
    }
  }

  // What a status tells of its run: its counts are those of the operations, and a clean
  // one means success.
  predicate Reports(st: SyncStatus, opts: SyncOptions, desired: Option<seq<DesiredUser>>, o: Outcome) {
    && st == StatusOf(opts, desired, o)
    && st.mode == opts.mode && st.applied == o.res.applied && st.failed == o.res.failed
    && st.aborted == o.res.aborted
    && (st.error == NoError <==> desired.Some? && (o.end.Aborted? || o.end.Dry? || o.end.Finished?))
    && st.creates == |OfKind(o.res.ops, OpCreate)| && st.patches == |OfKind(o.res.ops, OpPatch)|
    && st.deletes == |OfKind(o.res.ops, OpDelete)| && st.creates + st.patches + st.deletes == |o.res.ops|
    && (Clean(st) ==> Succeeds(opts, desired, o))
  }

  lemma StatusReports(opts: SyncOptions, desired: Option<seq<DesiredUser>>, o: Outcome)
    requires Performs(opts, desired, o) && (desired.Some? ==> DistinctDesired(desired.value))
    ensures Reports(StatusOf(opts, desired, o), opts, desired, o)
  {
    KindsAddUp(o.res.ops);
    KindsAreCounted(o.res.ops, OpCreate);
    KindsAreCounted(o.res.ops, OpPatch);
    KindsAreCounted(o.res.ops, OpDelete);
    if Clean(StatusOf(opts, desired, o)) {
      CleanStatus(opts, desired, o);
    }
  }

  // ---- States and steps ----

  // A caller of runSync: not running, waiting for the run lock, holding it before the
  // desired users are read, after that, after the node was dealt with; Stopped is the
  // loop after shutdown.
  datatype Phase = Idle | Waiting | Holding | Running | Synced | Stopped

  datatype Runner = Loop | Manual(id: nat)

  // What the daemon is started with.
  datatype Setup = Setup(opts: SyncOptions, table: Table, node: Config)

  // The versions of the users table are numbered from 1, the one at the start.
  // unsignalled: those whose write handler has yet to mark dirty.
  datatype Signal = Signal(version: nat, unsignalled: set<nat>, dirty: bool, lastRead: nat)

  // The phases of those who call runSync, who of them holds its lock, the runs begun, and
  // the run whose status was published last.
  datatype Callers = Callers(loop: Phase, manual: map<nat, Phase>, holder: Option<Runner>, runs: nat, published: nat)

  // desired, result: what the run under way read and came to; read: the users table as
  // last read, by any run.
  datatype Data = Data(table: Table, read: Table, node: Config, desired: Option<seq<DesiredUser>>,
                       result: SyncStatus, status: SyncStatus)

  datatype State = State(opts: SyncOptions, signal: Signal, callers: Callers, data: Data)

  datatype Event =
    | Commit(table: Table) | CommitUnreported(table: Table) | Mark(v: nat) | Foreign(node: Config)
    | Tick | Take | Shutdown | Request(id: nat)
    | Acquire(r: Runner) | Read(r: Runner, rows: seq<Row>) | ReadFails(r: Runner)
    | Apply(r: Runner, outcome: Outcome) | Publish(r: Runner)

  const NO_STATUS := SyncStatus("", 0, 0, 0, 0, 0, false, NoError)

  // The loop starts with a run.
  function Start(setup: Setup): State {
    State(setup.opts, Signal(1, {}, false, 0), Callers(Waiting, map[], None, 0, 0),
          Data(setup.table, map[], setup.node, None, NO_STATUS, NO_STATUS))
  }

  function PhaseOf(c: Callers, r: Runner): Phase {
    match r
    case Loop => c.loop
    case Manual(id) => if id in c.manual then c.manual[id] else Idle
  }

  function WithPhase(c: Callers, r: Runner, p: Phase): Callers {
    match r
    case Loop => c.(loop := p)
    case Manual(id) => c.(manual := c.manual[id := p])
  }

  predicate Signals(g: Signal, e: Event) {
    match e
    case Mark(v) => v in g.unsignalled
    case Take => g.dirty
    case _ => true
  }

  function NextSignal(g: Signal, e: Event): Signal {
    match e
    case Commit(_) => g.(version := g.version + 1, unsignalled := g.unsignalled + {g.version + 1})
    case CommitUnreported(_) => g.(version := g.version + 1)
    case Mark(v) => g.(unsignalled := g.unsignalled - {v}, dirty := true)
    case Take => g.(dirty := false)
    case Read(_, _) => g.(lastRead := g.version)
    case _ => g
  }

  predicate Calls(c: Callers, e: Event) {
    match e
    case Tick | Take | Shutdown => c.loop == Idle
    case Request(id) => PhaseOf(c, Manual(id)) == Idle
    case Acquire(r) => PhaseOf(c, r) == Waiting && c.holder == None
    case Read(r, _) => PhaseOf(c, r) == Holding
    case ReadFails(r) => PhaseOf(c, r) == Holding
    case Apply(r, _) => PhaseOf(c, r) == Running
    case Publish(r) => PhaseOf(c, r) == Synced
    case _ => true
  }

  function NextCallers(c: Callers, e: Event): Callers {
    match e
    case Tick | Take => c.(loop := Waiting)
    case Shutdown => c.(loop := Stopped)
    case Request(id) => WithPhase(c, Manual(id), Waiting)
    case Acquire(r) => WithPhase(c, r, Holding).(holder := Some(r), runs := c.runs + 1)
    case Read(r, _) => WithPhase(c, r, Running)
    case ReadFails(r) => WithPhase(c, r, Running)
    case Apply(r, _) => WithPhase(c, r, Synced)
    case Publish(r) => WithPhase(c, r, Idle).(holder := None, published := c.runs)
    case _ => c
  }

  predicate Handles(opts: SyncOptions, d: Data, e: Event) {
    match e
    case Commit(t) => ValidTable(t)
    case CommitUnreported(t) => ValidTable(t)
    case Read(_, rows) => Selects(rows, d.table)
    case Apply(_, o) => Performs(opts, d.desired, o)
    case _ => true
  }

  function NextData(opts: SyncOptions, d: Data, e: Event): Data {
    match e
    case Commit(t) => d.(table := t)
    case CommitUnreported(t) => d.(table := t)
    case Foreign(c) => d.(node := c)
    case Read(_, rows) => d.(desired := Some(DesiredOfAll(rows)), read := d.table)
    case ReadFails(_) => d.(desired := None)
    case Apply(_, o) =>
      d.(node := if o.run == [] then d.node else End(o.run[|o.run| - 1]), result := StatusOf(opts, d.desired, o))
    case Publish(_) => d.(status := d.result)
    case _ => d
  }

  predicate Enabled(s: State, e: Event) {
    Signals(s.signal, e) && Calls(s.callers, e) && Handles(s.opts, s.data, e)
  }

  function Next(s: State, e: Event): State {
    State(s.opts, NextSignal(s.signal, e), NextCallers(s.callers, e), NextData(s.opts, s.data, e))
  }

  // The state after a sequence of events, if each was possible.
  function After(setup: Setup, events: seq<Event>): Option<State> {
    if events == [] then Some(Start(setup))
    else
      var s, e := After(setup, events[..|events| - 1]), events[|events| - 1];
      if s.Some? && Enabled(s.value, e) then Some(Next(s.value, e)) else None
  }

  // ---- Runs are serial ----

  predicate InRun(p: Phase) { p == Holding || p == Running || p == Synced }

  ghost predicate Exclusive(c: Callers) {
    && (forall r :: InRun(PhaseOf(c, r)) <==> c.holder == Some(r))
    && c.published == (if c.holder.None? then c.runs else c.runs - 1)
    && (c.loop == Idle ==> c.published >= 1)
  }

  // The steps of a run.
  predicate OwnStep(e: Event) { e.Acquire? || e.Read? || e.ReadFails? || e.Apply? || e.Publish? }

  lemma OwnPhase(c: Callers, e: Event)
    requires Exclusive(c) && Calls(c, e) && OwnStep(e)
    ensures if e.Acquire? then c.holder == None else c.holder == Some(e.r)
  {
    assert InRun(PhaseOf(c, e.r)) <==> c.holder == Some(e.r);
  }

  lemma ExclusiveStep(c: Callers, e: Event)
    requires Exclusive(c) && Calls(c, e)
    ensures Exclusive(NextCallers(c, e))
  {
    var t := NextCallers(c, e);
    forall r
      ensures InRun(PhaseOf(t, r)) <==> t.holder == Some(r)
    {
      assert InRun(PhaseOf(c, r)) <==> c.holder == Some(r);
      if OwnStep(e) {
        assert InRun(PhaseOf(c, e.r)) <==> c.holder == Some(e.r);
      }
    }
  }

  lemma {:induction false} Invariant(setup: Setup, events: seq<Event>)
    requires After(setup, events).Some?
    ensures Exclusive(After(setup, events).value.callers)
    ensures var g := After(setup, events).value.signal; g.lastRead <= g.version
  {
    if events != [] {
      var front, e := events[..|events| - 1], events[|events| - 1];
      Invariant(setup, front);
      ExclusiveStep(After(setup, front).value.callers, e);
    } else {
      assert forall r :: !InRun(PhaseOf(Start(setup).callers, r));
    }
  }

  // At most one run at a time, whoever asks for it, and the published status is that of
  // the last finished one.
  lemma RunsAreSerial(setup: Setup, events: seq<Event>, a: Runner, b: Runner)
    requires After(setup, events).Some?
    ensures var c := After(setup, events).value.callers;
            && (InRun(PhaseOf(c, a)) && InRun(PhaseOf(c, b)) ==> a == b)
            && (c.published == c.runs || c.published == c.runs - 1)
            && (c.holder == Some(a) <==> InRun(PhaseOf(c, a)))
  {
    Invariant(setup, events);
    var c := After(setup, events).value.callers;
    assert InRun(PhaseOf(c, a)) <==> c.holder == Some(a);
    assert InRun(PhaseOf(c, b)) <==> c.holder == Some(b);
  }

  // The owner of a step, and what it may rely on while others take theirs.
  datatype Self = Run(r: Runner) | Handler(v: nat)

  predicate ByOther(e: Event, self: Self) {
    match self
    case Run(r) => !(OwnStep(e) && e.r == r)
    case Handler(v) => e != Mark(v)
  }

  predicate Kept(s: State, t: State, self: Self) {
    match self
    case Run(r) =>
      && (PhaseOf(s.callers, r) == Waiting ==> PhaseOf(t.callers, r) == Waiting)
      && (s.callers.holder == Some(r) ==>
        && t.callers.holder == Some(r) && PhaseOf(t.callers, r) == PhaseOf(s.callers, r)
        && (t.data.desired, t.data.read, t.data.result) == (s.data.desired, s.data.read, s.data.result))
    case Handler(v) => v in s.signal.unsignalled ==> v in t.signal.unsignalled
  }

  lemma OthersLeaveCallers(c: Callers, e: Event, r: Runner)
    requires Exclusive(c) && Calls(c, e) && !(OwnStep(e) && e.r == r)
    ensures PhaseOf(c, r) == Waiting ==> PhaseOf(NextCallers(c, e), r) == Waiting
    ensures c.holder == Some(r) ==>
              !OwnStep(e) && NextCallers(c, e).holder == Some(r) && PhaseOf(NextCallers(c, e), r) == PhaseOf(c, r)
  {
    assert InRun(PhaseOf(c, r)) <==> c.holder == Some(r);
    if OwnStep(e) {
      OwnPhase(c, e);
    }
  }

  // Nobody else takes a step of a run while one holds the lock, or touches that run, the
  // place of one who waits, or a handler's signal.
  lemma OthersKeepOut(s: State, e: Event, self: Self)
    requires Exclusive(s.callers) && Enabled(s, e) && ByOther(e, self)
    ensures Kept(s, Next(s, e), self)
    ensures self.Run? && s.callers.holder == Some(self.r) ==> !OwnStep(e)
  {
    if self.Run? {
      OthersLeaveCallers(s.callers, e, self.r);
    }
  }

  // ---- Lost wake-ups ----

  function Version(events: seq<Event>): nat {
    if events == [] then 1
    else
      var e := events[|events| - 1];
      Version(events[..|events| - 1]) + if e.Commit? || e.CommitUnreported? then 1 else 0
  }

  // The i-th event is a read of the users table with version v or a later one.
  predicate Reads(events: seq<Event>, i: nat, v: nat)
    requires i < |events|
  {
    events[i].Read? && v <= Version(events[..i])
  }

  // The i-th event leaves version v without a signal: its write is committed but reported
  // as an error, or the loop, which took the signal, fails to read.
  predicate Loses(events: seq<Event>, i: nat, v: nat)
    requires i < |events|
  {
    || (events[i].CommitUnreported? && v == Version(events[..i]) + 1)
    || (events[i] == ReadFails(Loop) && v <= Version(events[..i]))
  }

  predicate ReadSince(events: seq<Event>, v: nat) {
    exists i :: 0 <= i < |events| && Reads(events, i, v)
  }

  // Version v lost its signal and was not read since it was committed.
  predicate Lost(events: seq<Event>, v: nat) {
    1 <= v <= Version(events) && !ReadSince(events, v) && exists i :: 0 <= i < |events| && Loses(events, i, v)
  }

  lemma HistorySnoc(events: seq<Event>, e: Event, v: nat)
    ensures var more := events + [e];
            && Version(more) == Version(events) + (if e.Commit? || e.CommitUnreported? then 1 else 0)
            && (ReadSince(more, v) <==> ReadSince(events, v) || (e.Read? && v <= Version(events)))
            && (Lost(events, v) && !ReadSince(more, v) ==> Lost(more, v))
            && (1 <= v <= Version(more) && !ReadSince(more, v) && Loses(more, |events|, v) ==> Lost(more, v))
  {
    var more := events + [e];
    assert more[..|events|] == events;
    assert forall i :: 0 <= i < |events| ==> more[..i] == events[..i];
    forall i | 0 <= i < |events|
      ensures Reads(more, i, v) == Reads(events, i, v) && Loses(more, i, v) == Loses(events, i, v)
    {
    }
    if e.Read? && v <= Version(events) {
      assert Reads(more, |events|, v);
    }
  }

  // The versions read are those up to the last read.
  lemma {:induction false} ReadUpTo(setup: Setup, events: seq<Event>, v: nat)
    requires After(setup, events).Some?
    ensures var g := After(setup, events).value.signal;
            Version(events) == g.version && (v >= 1 ==> (ReadSince(events, v) <==> v <= g.lastRead))
  {
    if events != [] {
      var front, e := events[..|events| - 1], events[|events| - 1];
      ReadUpTo(setup, front, v);
      Invariant(setup, front);
      HistorySnoc(front, e, v);
      assert front + [e] == events;
    }
  }

  // Version v was committed after the last read.
  predicate Unread(g: Signal, v: nat) { g.lastRead < v <= g.version }

  // The loop is in a run that has not yet read, or bound for one.
  predicate WillRead(c: Callers) { c.loop == Waiting || c.loop == Holding }

  predicate Announced(s: State, v: nat) {
    s.signal.dirty || v in s.signal.unsignalled || WillRead(s.callers)
  }

  // Only the two faults take an unread version's announcement away.
  lemma StaysAnnounced(s: State, e: Event, v: nat)
    requires Enabled(s, e) && s.callers.loop != Stopped && Unread(s.signal, v) && Announced(s, v)
    ensures var t := Next(s, e);
            Unread(t.signal, v) && t.callers.loop != Stopped ==> Announced(t, v) || e == ReadFails(Loop)
  {
  }

  // No lost wake-up: an unread version is signalled, or its handler is about to signal,
  // or the loop is about to read, or one of the two faults lost it.
  lemma {:induction false} NoLostWakeUp(setup: Setup, events: seq<Event>, v: nat)
    requires After(setup, events).Some? && After(setup, events).value.callers.loop != Stopped
    requires Unread(After(setup, events).value.signal, v)
    ensures Announced(After(setup, events).value, v) || Lost(events, v)
  {
    if events != [] {
      var front, e := events[..|events| - 1], events[|events| - 1];
      var s := After(setup, front).value;
      assert front + [e] == events;
      HistorySnoc(front, e, v);
      ReadUpTo(setup, events, v);
      ReadUpTo(setup, front, v);
      if Unread(s.signal, v) {
        NoLostWakeUp(setup, front, v);
        if Announced(s, v) {
          StaysAnnounced(s, e, v);
        }
      }
    }
  }

  predicate AtRest(s: State) { s.callers.loop == Idle && !s.signal.dirty && s.signal.unsignalled == {} }

  // At rest the unread versions are exactly the lost ones.
  lemma UnreadAreLost(setup: Setup, events: seq<Event>, v: nat)
    requires After(setup, events).Some? && AtRest(After(setup, events).value)
    ensures Unread(After(setup, events).value.signal, v) <==> Lost(events, v)
  {
    ReadUpTo(setup, events, v);
    if Unread(After(setup, events).value.signal, v) {
      NoLostWakeUp(setup, events, v);
    }
  }

  lemma {:induction false} CommitsRaise(events: seq<Event>, a: nat, b: nat)
    requires a <= b <= |events|
    ensures Version(events[..a]) <= Version(events[..b])
    ensures Version(events[..a]) < Version(events[..b]) <==>
            exists j :: a <= j < b && (events[j].Commit? || events[j].CommitUnreported?)
  {
    if a < b {
      CommitsRaise(events, a, b - 1);
      assert events[..b][..b - 1] == events[..b - 1];
    }
  }

  // k is the position after the last read, 0 if there is none.
  predicate AfterLastRead(events: seq<Event>, k: nat) {
    && k <= |events| && (k > 0 ==> events[k - 1].Read?)
    && forall i :: k <= i < |events| ==> !events[i].Read?
  }

  lemma {:induction false} LastReadAt(setup: Setup, events: seq<Event>, k: nat)
    requires After(setup, events).Some? && AfterLastRead(events, k)
    ensures After(setup, events).value.signal.lastRead == if k == 0 then 0 else Version(events[..k])
  {
    if events != [] {
      var front, e := events[..|events| - 1], events[|events| - 1];
      assert events[..|events|] == events;
      if k == |events| {
        ReadUpTo(setup, front, 1);
      } else {
        assert front[..k] == events[..k];
        LastReadAt(setup, front, k);
      }
    }
  }

  // From position k on, a commit is reported as an error, or one (or the start, if k is
  // 0) is followed by a failed read of the loop.
  predicate Missed(events: seq<Event>, k: nat) {
    exists i :: k <= i < |events| && MissedAt(events, k, i)
  }

  predicate MissedAt(events: seq<Event>, k: nat, i: nat)
    requires i < |events|
  {
    || events[i].CommitUnreported?
    || (events[i] == ReadFails(Loop) && (k == 0 || exists j :: k <= j < i && events[j].Commit?))
  }

  // By positions alone: at rest some version is unread if and only if one was missed
  // after the last read.
  lemma UnreadIsMissed(setup: Setup, events: seq<Event>, k: nat)
    requires After(setup, events).Some? && AtRest(After(setup, events).value) && AfterLastRead(events, k)
    ensures (exists v :: Unread(After(setup, events).value.signal, v)) <==> Missed(events, k)
  {
    var g := After(setup, events).value.signal;
    LastReadAt(setup, events, k);
    ReadUpTo(setup, events, g.version);
    assert events[..|events|] == events;
    if v :| Unread(g, v) {
      assert Unread(g, g.version);
      UnreadAreLost(setup, events, g.version);
      var i :| 0 <= i < |events| && Loses(events, i, g.version);
      LosesAfter(events, k, i);
    }
    if Missed(events, k) {
      var i :| k <= i < |events| && MissedAt(events, k, i);
      CommitsRaise(events, k, |events|);
      assert Unread(g, g.version);
    }
  }

  lemma LosesAfter(events: seq<Event>, k: nat, i: nat)
    requires AfterLastRead(events, k) && i < |events| && Loses(events, i, Version(events))
    requires k > 0 ==> Version(events) > Version(events[..k])
    ensures k <= i && Missed(events, k)
  {
    assert events[..|events|] == events;
    CommitsRaise(events, i + 1, |events|);
    assert events[..i + 1][..i] == events[..i];
    if i < k {
      CommitsRaise(events, i + 1, k);
    } else {
      CommitsRaise(events, k, i);
      if events[i] == ReadFails(Loop) && k > 0 {
        var j :| k <= j < i && (events[j].Commit? || events[j].CommitUnreported?);
        assert MissedAt(events, k, if events[j].Commit? then i else j);
      } else {
        assert MissedAt(events, k, i);
      }
    }
  }

  // ---- From the table to the node ----

  // des is what the query answers on the table t.
  ghost predicate Snapshot(des: seq<DesiredUser>, t: Table) {
    exists rows :: Selects(rows, t) && des == DesiredOfAll(rows)
  }

  lemma SnapshotMirrors(des: seq<DesiredUser>, t: Table, prefix: string, c: Config)
    requires ValidTable(t) && Snapshot(des, t)
    ensures DistinctDesired(des) && (Converged(des, prefix, c) <==> Mirrors(t, prefix, c))
  {
    var rows :| Selects(rows, t) && des == DesiredOfAll(rows);
    SelectedAreDistinct(rows, t);
    ConvergedIsMirroring(rows, t, prefix, c);
  }

  predicate Current(c: Callers, p: Phase) { c.holder.Some? && PhaseOf(c, c.holder.value) == p }

  ghost predicate TablesInv(s: State) {
    && ValidTable(s.data.table) && ValidTable(s.data.read)
    && (s.signal.lastRead == s.signal.version ==> s.data.read == s.data.table)
    && (Current(s.callers, Running) && s.data.desired.Some? ==> Snapshot(s.data.desired.value, s.data.read))
  }

  // Nobody but SyncNode wrote to the node after the last run was done with it.
  predicate Untouched(events: seq<Event>) {
    exists i :: 0 <= i < |events| && events[i].Apply? && NoForeignAfter(events, i)
  }

  predicate NoForeignAfter(events: seq<Event>, i: nat) {
    forall j :: i < j < |events| ==> !events[j].Foreign?
  }

  // Whether it is untouched shows in the history after any run.
  lemma UntouchedAfter(events: seq<Event>, i: nat)
    requires i < |events| && events[i].Apply? && forall j :: i < j < |events| ==> !events[j].Foreign?
    ensures Untouched(events)
  {
    assert NoForeignAfter(events, i);
  }

  lemma UntouchedBefore(events: seq<Event>)
    requires events != [] && Untouched(events)
    ensures var front, e := events[..|events| - 1], events[|events| - 1];
            e.Apply? || (!e.Foreign? && Untouched(front))
  {
    var front := events[..|events| - 1];
    var i :| 0 <= i < |events| && events[i].Apply? && NoForeignAfter(events, i);
    if i < |front| {
      assert front[i].Apply? && NoForeignAfter(front, i);
    }
  }

  // The last run that was done with the node is the last one anybody wrote after.
  lemma UntouchedSince(events: seq<Event>, k: nat)
    requires Untouched(events) && k < |events| && forall i :: k < i < |events| ==> !events[i].Apply?
    ensures NoForeignAfter(events, k)
  {
    var i :| 0 <= i < |events| && events[i].Apply? && NoForeignAfter(events, i);
  }

  predicate LeavesNode(e: Event) { !e.Apply? && !e.Foreign? }

  // Only runs and foreign writes change the node.
  lemma {:induction false} NodeStays(setup: Setup, events: seq<Event>, more: seq<Event>)
    requires After(setup, events + more).Some? && forall i :: 0 <= i < |more| ==> LeavesNode(more[i])
    ensures After(setup, events).Some?
    ensures After(setup, events + more).value.data.node == After(setup, events).value.data.node
  {
    if more == [] {
      assert events + more == events;
    } else {
      assert (events + more)[..|events + more| - 1] == events + more[..|more| - 1];
      NodeStays(setup, events, more[..|more| - 1]);
    }
  }

  // A clean status, that of the run under way once it is done with the node or else the
  // published one, means that the node mirrors the table last read.
  ghost predicate Truthful(s: State) {
    var c, d := s.callers, s.data;
    && (Current(c, Synced) && Clean(d.result) ==> Mirrors(d.read, Prefix(s.opts), d.node))
    && ((c.holder.None? || Current(c, Holding)) && c.published >= 1 && Clean(d.status) ==>
          Mirrors(d.read, Prefix(s.opts), d.node))
  }

  // How the run under way goes on.
  lemma CurrentStep(c: Callers, e: Event)
    requires Exclusive(c) && Calls(c, e)
    ensures var t := NextCallers(c, e);
            match e
            case Acquire(_) => c.holder.None? && Current(t, Holding) && t.published == c.published
            case Read(_, _) => Current(c, Holding) && Current(t, Running)
            case ReadFails(_) => Current(c, Holding) && Current(t, Running)
            case Apply(_, _) => Current(c, Running) && Current(t, Synced)
            case Publish(_) => Current(c, Synced) && t.holder.None?
            case _ => t.holder == c.holder && t.published == c.published && forall p :: Current(t, p) == Current(c, p)
  {
    if OwnStep(e) {
      OwnPhase(c, e);
    } else if c.holder.Some? {
      assert InRun(PhaseOf(c, c.holder.value));
    }
  }

  lemma TablesStep(s: State, e: Event)
    requires Exclusive(s.callers) && s.signal.lastRead <= s.signal.version && TablesInv(s) && Enabled(s, e)
    ensures TablesInv(Next(s, e))
  {
    CurrentStep(s.callers, e);
    if e.Read? {
      assert Snapshot(DesiredOfAll(e.rows), s.data.table);
    }
  }

  lemma TruthStep(s: State, e: Event)
    requires Exclusive(s.callers) && TablesInv(s) && Enabled(s, e)
    requires e.Apply? || (!e.Foreign? && Truthful(s))
    ensures Truthful(Next(s, e))
  {
    CurrentStep(s.callers, e);
    if e.Apply? {
      AppliedIsTrue(s, e);
    }
  }

  lemma AppliedIsTrue(s: State, e: Event)
    requires Exclusive(s.callers) && TablesInv(s) && Enabled(s, e) && e.Apply?
    ensures var d := Next(s, e).data; Clean(d.result) ==> Mirrors(d.read, Prefix(s.opts), d.node)
  {
    CurrentStep(s.callers, e);
    var desired, o := s.data.desired, e.outcome;
    if desired.Some? {
      SnapshotMirrors(desired.value, s.data.read, Prefix(s.opts), NextData(s.opts, s.data, e).node);
    }
    if Clean(StatusOf(s.opts, desired, o)) {
      CleanStatus(s.opts, desired, o);
    }
  }

  lemma {:induction false} Truth(setup: Setup, events: seq<Event>)
    requires ValidTable(setup.table) && After(setup, events).Some?
    ensures TablesInv(After(setup, events).value)
    ensures Untouched(events) ==> Truthful(After(setup, events).value)
  {
    if events != [] {
      var front, e := events[..|events| - 1], events[|events| - 1];
      var s := After(setup, front).value;
      Truth(setup, front);
      Invariant(setup, front);
      TablesStep(s, e);
      if Untouched(events) {
        UntouchedBefore(events);
        TruthStep(s, e);
      }
    }
  }

  // End to end: when everything has come to rest, no version was lost, the last status is
  // clean and nobody else has written to the node since, the node mirrors the users table
  // as it is now.
  lemma NodeMirrorsTable(setup: Setup, events: seq<Event>)
    requires ValidTable(setup.table) && After(setup, events).Some?
    requires var s := After(setup, events).value; AtRest(s) && s.callers.holder == None && Clean(s.data.status)
    requires Untouched(events) && forall v :: !Lost(events, v)
    ensures var s := After(setup, events).value;
            s.signal.lastRead == s.signal.version && Mirrors(s.data.table, Prefix(s.opts), s.data.node)
  {
    var s := After(setup, events).value;
    Invariant(setup, events);
    Truth(setup, events);
    UnreadAreLost(setup, events, s.signal.version);
  }

  // In particular in every history without the two faults.
  lemma FaultlessLosesNothing(events: seq<Event>, v: nat)
    requires forall i :: 0 <= i < |events| ==> !events[i].CommitUnreported? && events[i] != ReadFails(Loop)
    ensures !Lost(events, v)
  {
  }

  // ---- Both faults do lose a wake-up ----

  lemma Extend(setup: Setup, events: seq<Event>, e: Event) returns (more: seq<Event>)
    requires After(setup, events).Some? && Enabled(After(setup, events).value, e)
    ensures more == events + [e] && After(setup, more) == Some(Next(After(setup, events).value, e))
  {
    more := events + [e];
    assert more[..|events|] == events;
  }

  // The loop is waiting for the lock, which is free.
  predicate Ready(s: State) { s.callers.loop == Waiting && s.callers.holder == None }

  predicate Rested(s: State) { s.callers.loop == Idle && s.callers.holder == None }

  // The loop has read, or failed to.
  predicate HasTried(s: State) { s.callers.loop == Running && s.callers.holder == Some(Loop) }

  // A run of the loop that fails to read, or reads and then gets no listing.
  lemma UselessRun(setup: Setup, events: seq<Event>, read: Event) returns (more: seq<Event>)
    requires After(setup, events).Some? && Ready(After(setup, events).value)
    requires After(setup, events).value.opts == setup.opts
    requires (read.Read? || read.ReadFails?) && read.r == Loop
    requires Handles(setup.opts, After(setup, events).value.data, read)
    ensures After(setup, more).Some? && Rested(After(setup, more).value) && |more| >= 3 && more[|more| - 3] == read
    ensures var s, t := After(setup, events).value, After(setup, more).value;
            t.opts == s.opts && t.signal == NextSignal(s.signal, read) && t.data.table == s.data.table
  {
    more := Extend(setup, events, Acquire(Loop));
    more := Extend(setup, more, read);
    more := UselessEnd(setup, more);
  }

  lemma UselessEnd(setup: Setup, events: seq<Event>) returns (more: seq<Event>)
    requires After(setup, events).Some? && HasTried(After(setup, events).value)
    requires After(setup, events).value.opts == setup.opts
    ensures After(setup, more).Some? && Rested(After(setup, more).value)
    ensures events < more && |more| == |events| + 2
    ensures var s, t := After(setup, events).value, After(setup, more).value;
            t.opts == s.opts && t.signal == s.signal && t.data.table == s.data.table
  {
    var end := if Attempts(setup.opts) == 0 then Conflicted else Unlisted;
    more := Extend(setup, events, Apply(Loop, Outcome([], EMPTY_RESULT, end)));
    more := Extend(setup, more, Publish(Loop));
  }

  // The start-up run is one, with nothing in the table.
  lemma UselessStart(setup: Setup) returns (events: seq<Event>)
    requires setup.table == map[]
    ensures After(setup, events).Some? && Rested(After(setup, events).value)
    ensures After(setup, events).value.signal == Signal(1, {}, false, 1)
    ensures After(setup, events).value.opts == setup.opts
  {
    events := UselessRun(setup, [], Read(Loop, []));
  }

  // Committed, but still unread with everything at rest.
  predicate Stranded(setup: Setup, events: seq<Event>, t: Table) {
    After(setup, events).Some? &&
    var s := After(setup, events).value;
    AtRest(s) && s.callers.holder == None && s.data.table == t && s.signal.lastRead < s.signal.version
  }

  lemma FailedReadLosesWakeUp(opts: SyncOptions, t: Table, node: Config) returns (events: seq<Event>)
    requires ValidTable(t)
    ensures Stranded(Setup(opts, map[], node), events, t) && ReadFails(Loop) in events
  {
    var setup := Setup(opts, map[], node);
    events := UselessStart(setup);
    events := Extend(setup, events, Commit(t));
    events := Extend(setup, events, Mark(2));
    events := Extend(setup, events, Take);
    events := UselessRun(setup, events, ReadFails(Loop));
  }

  lemma UnreportedCommitLosesWakeUp(opts: SyncOptions, t: Table, node: Config) returns (events: seq<Event>)
    requires ValidTable(t)
    ensures Stranded(Setup(opts, map[], node), events, t) && CommitUnreported(t) in events
  {
    var setup := Setup(opts, map[], node);
    events := UselessStart(setup);
    events := Extend(setup, events, CommitUnreported(t));
    assert events[|events| - 1] == CommitUnreported(t);
  }

  // ---- Debouncing ----

  function Takes(events: seq<Event>): nat {
    if events == [] then 0 else Takes(events[..|events| - 1]) + if events[|events| - 1] == Take then 1 else 0
  }

  function Marks(events: seq<Event>): nat {
    if events == [] then 0 else Marks(events[..|events| - 1]) + if events[|events| - 1].Mark? then 1 else 0
  }

  // Every run started by the signal, and the signal pending, is paid for by a write of its own.
  lemma {:induction false} Debounced(setup: Setup, events: seq<Event>)
    requires After(setup, events).Some?
    ensures Takes(events) + (if After(setup, events).value.signal.dirty then 1 else 0) <= Marks(events)
  {
    if events != [] {
      Debounced(setup, events[..|events| - 1]);
    }
  }
}
