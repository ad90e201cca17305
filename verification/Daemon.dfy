// internal/server: the daemon's own steps, each a method, while other goroutines take
// theirs in between. The history says what everybody did; what holds of every history is
// in the protocol's theorems.
module Daemon {
  import opened Options
  import opened Users
  import opened Diff
  import opened DiffTheory
  import opened Telemt
  import opened Sync
  import opened Store
  import opened Protocol

  method CountKinds(ops: seq<SyncOp>) returns (creates: nat, patches: nat, deletes: nat)
    ensures creates == CountOps(ops, OpCreate) && patches == CountOps(ops, OpPatch)
    ensures deletes == CountOps(ops, OpDelete) && creates + patches + deletes == |ops|
  {
    creates, patches, deletes := 0, 0, 0;
    for i := 0 to |ops|
      invariant creates == CountOps(ops[..i], OpCreate) && patches == CountOps(ops[..i], OpPatch)
      invariant deletes == CountOps(ops[..i], OpDelete)
    {
      assert ops[..i + 1][..i] == ops[..i];
      match ops[i] {
        case Create(_, _, _, _) => creates := creates + 1;
        case Patch(_, _) => patches := patches + 1;
        case Delete(_) => deletes := deletes + 1;
      }
    }
    assert ops[..|ops|] == ops;
    KindsAddUp(ops);
  }

  // The status runSync builds of SyncNode's result.
  method Summary(opts: SyncOptions, des: Option<seq<DesiredUser>>, err: SyncError, o: Outcome) returns (st: SyncStatus)
    requires Performs(opts, des, o) && err == ErrorOfRun(des, o) && (des.Some? ==> DistinctDesired(des.value))
    ensures Reports(st, opts, des, o)
  {
    var creates, patches, deletes := CountKinds(o.res.ops);
    st := SyncStatus(opts.mode, creates, patches, deletes, o.res.applied, o.res.failed, o.res.aborted, err);
    StatusReports(opts, des, o);
  }

  method Synchronise(des: Option<seq<DesiredUser>>, node: Node, opts: SyncOptions) returns (o: Outcome, err: SyncError)
    requires node.Valid()
    modifies node
    ensures node.Valid() && node.Log() == old(node.Log()) + o.run
    ensures Performs(opts, des, o) && err == ErrorOfRun(des, o)
  {
    var res, run, end;
    res, err, run, end := SyncNode(des, node, opts);
    o := Outcome(run, res, end);
  }

  // What a query of the users table answers: an error, or its enabled rows in any order.
  method Query(t: Table) returns (rows: Option<seq<Row>>)
    ensures rows.Some? ==> Selects(rows.value, t)
  {
    rows := *;
    if rows.Some? && !Selects(rows.value, t) {
      rows := None;
    }
  }

  // ListDesired on a query that answers these rows.
  method Scan(rows: seq<Row>) returns (des: Option<seq<DesiredUser>>)
    ensures des == Some(DesiredOfAll(rows))
  {
    var scanned := seq(|rows|, i requires 0 <= i < |rows| => Some(rows[i]));
    assert forall row :: row in scanned ==> row.Some?;
    des := ListDesired(Some(scanned), false);
    assert des.value == DesiredOfAll(rows);
  }

  lemma SnapshotIsSound(setup: Setup, events: seq<Event>, des: Option<seq<DesiredUser>>)
    requires ValidTable(setup.table) && After(setup, events).Some?
    requires des.Some? ==> Snapshot(des.value, After(setup, events).value.data.read)
    ensures ValidTable(After(setup, events).value.data.read) && (des.Some? ==> DistinctDesired(des.value))
  {
    Truth(setup, events);
    if des.Some? {
      SnapshotMirrors(des.value, After(setup, events).value.data.read, "", map[]);
    }
  }

  lemma PublishKeeps(setup: Setup, events: seq<Event>, r: Runner, o: Outcome, from: nat,
                     des: Option<seq<DesiredUser>>)
    requires After(setup, events).Some? && After(setup, events + [Publish(r)]).Some?
    requires KnowsEnd(setup, events, o) && GivenSince(events, from, r, des)
    ensures var more := events + [Publish(r)];
            KnowsEnd(setup, more, o) && GivenSince(more, from, r, des) && more[|more| - 1] == Publish(r)
  {
    var more := events + [Publish(r)];
    assert more[..|more| - 1] == events;
    StillGiven(events, more, from, r, des);
    if Untouched(more) {
      UntouchedBefore(more);
    }
  }

  // What a clean status means for the node object.
  lemma CleanMirrors(opts: SyncOptions, node: Node, base: seq<Session>, des: Option<seq<DesiredUser>>, read: Table,
                     o: Outcome, st: SyncStatus)
    requires node.Valid() && node.Log() == base + o.run && Reports(st, opts, des, o)
    requires ValidTable(read) && (des.Some? ==> Snapshot(des.value, read))
    ensures Clean(st) && node.foreign == 0 ==>
              Converged(des.value, Prefix(opts), node.config) && Mirrors(read, Prefix(opts), node.config)
  {
    if Clean(st) {
      LogEndsAt(node, base, o.run);
      SnapshotMirrors(des.value, read, Prefix(opts), node.config);
    }
  }

  lemma {:induction false} OthersAllKeepOut(setup: Setup, events: seq<Event>, more: seq<Event>, self: Self)
    requires After(setup, events).Some? && After(setup, events + more).Some?
    requires forall i :: 0 <= i < |more| ==> ByOther(more[i], self)
    ensures Kept(After(setup, events).value, After(setup, events + more).value, self)
    ensures self.Run? && After(setup, events).value.callers.holder == Some(self.r) ==>
              forall i :: 0 <= i < |more| ==> !OwnStep(more[i])
  {
    if more == [] {
      assert events + more == events;
    } else {
      var front, e := more[..|more| - 1], more[|more| - 1];
      assert (events + more)[..|events + more| - 1] == events + front;
      OthersAllKeepOut(setup, events, front, self);
      Invariant(setup, events + front);
      OthersKeepOut(After(setup, events + front).value, e, self);
    }
  }

  // The event is the read, or the failed one, that gave runner r what it wants of the node.
  predicate Gives(e: Event, r: Runner, des: Option<seq<DesiredUser>>) {
    match des
    case None => e == ReadFails(r)
    case Some(d) => e.Read? && e.r == r && d == DesiredOfAll(e.rows)
  }

  predicate GivenSince(events: seq<Event>, from: nat, r: Runner, des: Option<seq<DesiredUser>>) {
    exists i :: from <= i < |events| && Gives(events[i], r, des)
  }

  lemma StillGiven(events: seq<Event>, more: seq<Event>, from: nat, r: Runner, des: Option<seq<DesiredUser>>)
    requires events <= more && GivenSince(events, from, r, des)
    ensures GivenSince(more, from, r, des)
  {
    var i :| from <= i < |events| && Gives(events[i], r, des);
    assert more[i] == events[i];
  }

  // The run left the node so, and the protocol still knows unless someone else has written.
  ghost predicate KnowsEnd(setup: Setup, events: seq<Event>, o: Outcome) {
    After(setup, events).Some? && o.run != [] && Untouched(events) ==>
      After(setup, events).value.data.node == End(o.run[|o.run| - 1])
  }

  lemma EndStaysKnown(setup: Setup, events: seq<Event>, r: Runner, o: Outcome, more: seq<Event>)
    requires After(setup, events + [Apply(r, o)] + more).Some? && After(setup, events + [Apply(r, o)]).Some?
    requires forall i :: 0 <= i < |more| ==> !more[i].Apply?
    ensures KnowsEnd(setup, events + [Apply(r, o)] + more, o)
  {
    var applied, k := events + [Apply(r, o)], |events|;
    assert applied[..k] == events && applied[k] == Apply(r, o);
    if o.run != [] && Untouched(applied + more) {
      UntouchedSince(applied + more, k);
      assert forall i :: 0 <= i < |more| ==> more[i] == (applied + more)[k + 1 + i];
      NodeStays(setup, applied, more);
    }
  }

  // With no write of others since its last event, a node's table is where its log ends.
  lemma LogEndsAt(node: Node, base: seq<Session>, run: seq<Session>)
    requires node.Valid() && node.Log() == base + run && run != []
    ensures node.current == Some(run[|run| - 1])
    ensures node.foreign == 0 ==> node.config == End(run[|run| - 1])
  {
    assert node.Log()[|node.Log()| - 1] == run[|run| - 1];
  }

  lemma {:induction false} KeepsOptions(setup: Setup, events: seq<Event>)
    requires After(setup, events).Some?
    ensures After(setup, events).value.opts == setup.opts
  {
    if events != [] {
      KeepsOptions(setup, events[..|events| - 1]);
    }
  }

  // What a run does to its node, and the status of that.
  method Work(des: Option<seq<DesiredUser>>, node: Node, opts: SyncOptions, ghost read: Table)
    returns (o: Outcome, st: SyncStatus)
    requires node.Valid() && ValidTable(read)
    requires des.Some? ==> DistinctDesired(des.value) && Snapshot(des.value, read)
    modifies node
    ensures node.Valid() && node.Log() == old(node.Log()) + o.run
    ensures Performs(opts, des, o) && Reports(st, opts, des, o)
    ensures Clean(st) && node.foreign == 0 ==>
              Converged(des.value, Prefix(opts), node.config) && Mirrors(read, Prefix(opts), node.config)
  {
    var err;
    o, err := Synchronise(des, node, opts);
    st := Summary(opts, des, err, o);
    CleanMirrors(opts, node, old(node.Log()), des, read, o, st);
  }

  class Server {
    const setup: Setup
    var dirty: bool  // the channel of capacity one
    var runMu: Option<Runner>
    var lastSync: SyncStatus
    var history: seq<Event>

    ghost predicate Valid()
      reads this
    {
      && ValidTable(setup.table)
      && After(setup, history).Some?
      && var s := After(setup, history).value;
         dirty == s.signal.dirty && runMu == s.callers.holder && lastSync == s.data.status
    }

    function Now(): State
      reads this
      requires After(setup, history).Some?
    {
      After(setup, history).value
    }

    constructor (setup: Setup)
      requires ValidTable(setup.table)
      ensures Valid() && this.setup == setup && history == []
    {
      this.setup := setup;
      dirty, runMu, lastSync, history := false, None, NO_STATUS, [];
    }

    // A daemon at rest whose last status is clean: its node's table mirrors the users
    // table, if no version was lost, nobody else wrote to the node since, and the
    // protocol knows where the node's log ends, as a run sees to.
    lemma RestsTruthfully(node: Node)
      requires Valid() && AtRest(Now()) && runMu == None && Clean(lastSync)
      requires Untouched(history) && forall v :: !Lost(history, v)
      requires node.Valid() && node.foreign == 0 && node.current.Some? && Now().data.node == End(node.current.value)
      ensures Mirrors(Now().data.table, Prefix(setup.opts), node.config)
    {
      NodeMirrorsTable(setup, history);
      KeepsOptions(setup, history);
    }

    // Whatever others do meanwhile.
    method Others(self: Self) returns (more: seq<Event>)
      requires Valid()
      modifies this
      ensures Valid() && history == old(history) + more && Kept(old(Now()), Now(), self)
      ensures self.Run? && old(runMu) == Some(self.r) ==> forall i :: 0 <= i < |more| ==> !OwnStep(more[i])
    {
      more := *;
      if After(setup, history + more).Some? && forall i :: 0 <= i < |more| ==> ByOther(more[i], self) {
        OthersAllKeepOut(setup, history, more, self);
        history := history + more;
        var s := Now();
        dirty, runMu, lastSync := s.signal.dirty, s.callers.holder, s.data.status;
      } else {
        more := [];
      }
    }

    // A step that is none of the server's fields' business.
    method Note(e: Event)
      requires Valid() && Enabled(Now(), e)
      requires !e.Mark? && !e.Take? && !e.Acquire? && !e.Publish?
      modifies this`history
      ensures Valid() && history == old(history) + [e] && Now() == Next(old(Now()), e)
    {
      ghost var more := Extend(setup, history, e);
      history := history + [e];
    }

    // A send that gives up when the slot is full: announces version v either way.
    method MarkDirty(v: nat)
      requires Valid() && v in Now().signal.unsignalled
      modifies this`history, this`dirty
      ensures Valid() && dirty && history == old(history) + [Mark(v)] && Now() == Next(old(Now()), Mark(v))
    {
      ghost var more := Extend(setup, history, Mark(v));
      history := history + [Mark(v)];
      if !dirty {
        dirty := true;
      }
    }

    // The loop takes the signal.
    method Take()
      requires Valid() && Now().callers.loop == Idle && dirty
      modifies this`history, this`dirty
      ensures Valid() && !dirty && history == old(history) + [Event.Take] && Now() == Next(old(Now()), Event.Take)
    {
      ghost var more := Extend(setup, history, Event.Take);
      history := history + [Event.Take];
      dirty := false;
    }

    method Lock(r: Runner)
      requires Valid() && PhaseOf(Now().callers, r) == Waiting && runMu == None
      modifies this`history, this`runMu
      ensures Valid() && runMu == Some(r) && history == old(history) + [Acquire(r)]
      ensures Now() == Next(old(Now()), Acquire(r))
    {
      ghost var more := Extend(setup, history, Acquire(r));
      history := history + [Acquire(r)];
      runMu := Some(r);
    }

    // The status is stored and the lock released.
    method PublishStatus(r: Runner, st: SyncStatus)
      requires Valid() && PhaseOf(Now().callers, r) == Synced && runMu == Some(r) && Now().data.result == st
      modifies this`history, this`lastSync, this`runMu
      ensures Valid() && PhaseOf(Now().callers, r) == Idle && runMu == None && lastSync == st
      ensures history == old(history) + [Publish(r)] && Now().data.read == old(Now()).data.read
    {
      ghost var more := Extend(setup, history, Publish(r));
      history := history + [Publish(r)];
      lastSync := st;
      runMu := None;
    }

    // A write handler: the store commits the new table, and if it says so, mark dirty.
    method Write(t: Table, reported: bool)
      requires Valid() && ValidTable(t)
      modifies this
      ensures Valid() && old(history) < history
      ensures reported ==> dirty && history[|old(history)|] == Commit(t)
                           && history[|history| - 1] == Mark(old(Now()).signal.version + 1)
      ensures !reported ==> history == old(history) + [CommitUnreported(t)]
    {
      if !reported {
        Note(CommitUnreported(t));
        return;
      }
      var v := Now().signal.version + 1;
      Note(Commit(t));
      var more := Others(Handler(v));
      MarkDirty(v);
    }

    // From the lock taken to the desired users read.
    method Begin(r: Runner) returns (des: Option<seq<DesiredUser>>)
      requires Valid() && PhaseOf(Now().callers, r) == Waiting && runMu == None
      modifies this
      ensures Valid() && PhaseOf(Now().callers, r) == Running && runMu == Some(r)
      ensures old(history) < history && GivenSince(history, |old(history)|, r, des)
      ensures Now().data.desired == des && (des.Some? ==> Snapshot(des.value, Now().data.read))
    {
      Lock(r);
      var more := Others(Run(r));
      des := ReadDesired(r);
      ghost var read := history;
      more := Others(Run(r));
      StillGiven(read, history, |old(history)|, r, des);
    }

    // The desired users, out of whatever the table is by now.
    method ReadDesired(r: Runner) returns (des: Option<seq<DesiredUser>>)
      requires Valid() && PhaseOf(Now().callers, r) == Holding && runMu == Some(r)
      modifies this`history
      ensures Valid() && PhaseOf(Now().callers, r) == Running
      ensures |history| == |old(history)| + 1 && old(history) < history
      ensures Gives(history[|history| - 1], r, des)
      ensures Now().data.desired == des && (des.Some? ==> Snapshot(des.value, Now().data.read))
    {
      var rows := Query(Now().data.table);
      if rows.None? {
        Note(ReadFails(r));
        return None;
      }
      des := Scan(rows.value);
      Note(Read(r, rows.value));
    }

    // What came of SyncNode is the run's result.
    method Finish(r: Runner, des: Option<seq<DesiredUser>>, o: Outcome, ghost from: nat)
      requires GivenSince(history, from, r, des)
      requires Valid() && PhaseOf(Now().callers, r) == Running && runMu == Some(r) && Now().data.desired == des
      requires Performs(setup.opts, des, o)
      modifies this
      ensures Valid() && PhaseOf(Now().callers, r) == Synced && runMu == Some(r) && old(history) < history
      ensures Now().data.result == StatusOf(setup.opts, des, o) && Now().data.read == old(Now()).data.read
      ensures KnowsEnd(setup, history, o) && GivenSince(history, from, r, des)
    {
      KeepsOptions(setup, history);
      Note(Apply(r, o));
      var more := Others(Run(r));
      EndStaysKnown(setup, old(history), r, o, more);
      StillGiven(old(history), history, from, r, des);
    }

    // From SyncNode done to the status published.
    method Conclude(r: Runner, des: Option<seq<DesiredUser>>, o: Outcome, st: SyncStatus, ghost from: nat)
      requires GivenSince(history, from, r, des)
      requires Valid() && PhaseOf(Now().callers, r) == Running && runMu == Some(r) && Now().data.desired == des
      requires Performs(setup.opts, des, o) && st == StatusOf(setup.opts, des, o)
      modifies this
      ensures Valid() && PhaseOf(Now().callers, r) == Idle && runMu == None && lastSync == st
      ensures old(history) < history && history[|history| - 1] == Publish(r)
      ensures Now().data.read == old(Now()).data.read && KnowsEnd(setup, history, o)
      ensures GivenSince(history, from, r, des)
    {
      Finish(r, des, o, from);
      ghost var done := history;
      PublishStatus(r, st);
      PublishKeeps(setup, done, r, o, from, des);
    }

    // Once it has the run lock: read the desired users, synchronise, publish the status
    // and release the lock, whatever others do at any point. A clean status means that
    // the node's own table, unless others wrote to it since, mirrors the users table read.
    method RunSync(r: Runner, node: Node) returns (st: SyncStatus, des: Option<seq<DesiredUser>>, o: Outcome)
      requires Valid() && PhaseOf(Now().callers, r) == Waiting && runMu == None && node.Valid()
      modifies this, node
      ensures Valid() && node.Valid() && node.Log() == old(node.Log()) + o.run
      ensures PhaseOf(Now().callers, r) == Idle && runMu == None && lastSync == st
      ensures Performs(setup.opts, des, o) && Reports(st, setup.opts, des, o)
      ensures old(history) < history && history[|history| - 1] == Publish(r)
      ensures GivenSince(history, |old(history)|, r, des) && KnowsEnd(setup, history, o)
      ensures Clean(st) && node.foreign == 0 ==>
                && Converged(des.value, Prefix(setup.opts), node.config)
                && Mirrors(Now().data.read, Prefix(setup.opts), node.config)
    {
      des := Begin(r);
      SnapshotIsSound(setup, history, des);
      o, st := Work(des, node, setup.opts, Now().data.read);
      Conclude(r, des, o, st, |old(history)|);
    }

    // The sync loop is woken by its ticker or by the signal, and asks for the lock.
    method Wake(tick: bool) returns (woken: bool)
      requires Valid() && Now().callers.loop == Idle
      modifies this
      ensures Valid() && (woken <==> tick || old(dirty))
      ensures !woken ==> history == old(history) && Now() == old(Now())
      ensures woken ==> old(history) < history && history[|old(history)|] == if tick then Tick else Event.Take
      ensures woken ==> Now().callers.loop == Waiting
    {
      woken := tick || dirty;
      if !woken {
        return;
      }
      if tick {
        Note(Tick);
      } else {
        Take();
      }
      var more := Others(Run(Loop));
    }

    // One turn of the sync loop: once woken it runs as soon as it gets the lock; waiting
    // says that somebody else still has it.
    method LoopTurn(tick: bool, node: Node) returns (woken: bool, waiting: bool)
      requires Valid() && Now().callers.loop == Idle && node.Valid()
      modifies this, node
      ensures Valid() && node.Valid() && (woken <==> tick || old(dirty))
      ensures woken ==> old(history) < history && history[|old(history)|] == if tick then Tick else Event.Take
      ensures Now().callers.loop == if woken && waiting then Waiting else Idle
      ensures woken && !waiting ==> runMu == None
    {
      woken := Wake(tick);
      waiting := woken && runMu != None;
      if woken && !waiting {
        var st, des, o := RunSync(Loop, node);
      }
    }
  }
}
