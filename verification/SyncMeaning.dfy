// internal/sync/sync.go in plain terms: what makes the op loop stop, what it counts, when
// a run is aborted or gives up, and what it leaves of every user.
module SyncMeaning {
  import opened Options
  import opened Users
  import opened Configs
  import opened Diff
  import opened DiffTheory
  import opened DiffProgress
  import opened DiffMeaning
  import opened Wire
  import opened Telemt
  import opened Sync
  import opened OpLoop
  import opened SyncTheory

  // ---- Replies ----

  // 404, or 409 with "user_exists".
  predicate SaysDone(reply: Reply) {
    reply.Failure? && reply.error.ApiError?
    && (reply.error.status == 404 || (reply.error.status == 409 && Contains(reply.error.body, "user_exists")))
  }

  // 403 with "read_only".
  predicate SaysReadOnly(reply: Reply) {
    reply.Failure? && reply.error.ApiError? && reply.error.status == 403 && Contains(reply.error.body, "read_only")
  }

  // 409 with "revision" and without "user_exists".
  predicate SaysConflict(reply: Reply) {
    && reply.Failure? && reply.error.ApiError? && reply.error.status == 409
    && Contains(reply.error.body, "revision") && !Contains(reply.error.body, "user_exists")
  }

  predicate Halts(reply: Reply) { SaysReadOnly(reply) || SaysConflict(reply) }

  // Any other error, one that never reached the node included.
  predicate Ordinary(reply: Reply) { reply.Failure? && !SaysDone(reply) && !Halts(reply) }

  lemma VerdictOf(reply: Reply)
    ensures Judge(reply) == Applied <==> reply.Done?
    ensures Judge(reply) == Skipped <==> SaysDone(reply)
    ensures Judge(reply) == Locked <==> SaysReadOnly(reply)
    ensures Judge(reply) == Conflict <==> SaysConflict(reply)
    ensures Judge(reply) == Failed <==> Ordinary(reply)
  {
  }

  // ---- When the loop goes on ----

  lemma {:induction false} OnlyTheLastHalts(ops: seq<SyncOp>, listed: Config, calls: seq<Call>, i: nat)
    requires Follows(ops, listed, calls) && i + 1 < |calls|
    ensures !Halts(calls[i].reply)
  {
    var front := calls[..|calls| - 1];
    VerdictOf(calls[i].reply);
    if i + 1 < |front| {
      OnlyTheLastHalts(ops, listed, front, i);
    }
  }

  // An attempt sends its operations one after the other up to a read-only answer or a
  // conflict, and all of them if there is none: no other failure stops it.
  lemma StopsExactly(des: seq<DesiredUser>, opts: SyncOptions, run: seq<Session>, res: Result, end: Ending, j: nat)
    requires Accounts(des, opts, run, res, end) && j < |run| && run[j].calls != []
    ensures var calls, ops := run[j].calls, Ops(des, opts, run[j]);
            && |calls| <= |ops|
            && (forall i :: 0 <= i < |calls| ==> calls[i].request == RequestOf(ops[i]))
            && (forall i :: 0 <= i < |calls| - 1 ==> !Halts(calls[i].reply))
            && (|calls| < |ops| ==> Halts(calls[|calls| - 1].reply))
  {
    var calls, ops := run[j].calls, Ops(des, opts, run[j]);
    AccountsChain(des, opts, run, res, end);
    assert Link(des, opts, run, j);
    forall i | 0 <= i < |calls|
      ensures calls[i].request == RequestOf(ops[i])
    {
      CallAt(ops, run[j].listed, calls, i);
    }
    forall i | 0 <= i < |calls| - 1
      ensures !Halts(calls[i].reply)
    {
      OnlyTheLastHalts(ops, run[j].listed, calls, i);
    }
    VerdictOf(calls[|calls| - 1].reply);
  }

  function LastReply(s: Session): Reply
    requires s.calls != []
  {
    s.calls[|s.calls| - 1].reply
  }

  // A call ends locked out exactly when its last reply says read-only, and with that error.
  lemma LockedOutExactly(des: seq<DesiredUser>, opts: SyncOptions, run: seq<Session>, res: Result, end: Ending)
    requires Accounts(des, opts, run, res, end)
    ensures end.LockedOut? <==> run != [] && run[|run| - 1].calls != [] && SaysReadOnly(LastReply(run[|run| - 1]))
    ensures end.LockedOut? ==> LastReply(run[|run| - 1]) == Failure(end.error)
  {
    AccountsChain(des, opts, run, res, end);
    if run != [] && run[|run| - 1].calls != [] {
      VerdictOf(LastReply(run[|run| - 1]));
    }
  }

  // ---- What is counted ----

  function Judged(calls: seq<Call>, v: Verdict): set<nat> {
    set i: nat | i < |calls| && Judge(calls[i].reply) == v
  }

  lemma {:induction false} CountIsNumber(calls: seq<Call>, v: Verdict)
    ensures Count(calls, v) == |Judged(calls, v)|
  {
    if calls != [] {
      var front, n := calls[..|calls| - 1], |calls| - 1;
      CountIsNumber(front, v);
      JudgedSnoc(calls, v);
    }
  }

  lemma JudgedSnoc(calls: seq<Call>, v: Verdict)
    requires calls != []
    ensures var front, n := calls[..|calls| - 1], |calls| - 1;
            && Judged(calls, v) == Judged(front, v) + (if Judge(calls[n].reply) == v then {n} else {})
            && n !in Judged(front, v)
  {
    var front, n := calls[..|calls| - 1], |calls| - 1;
    forall i: nat
      ensures i in Judged(calls, v) <==> i in Judged(front, v) || (i == n && Judge(calls[n].reply) == v)
    {
      assert i < n ==> front[i] == calls[i];
    }
  }

  function Accepted(calls: seq<Call>): set<nat> { set i: nat | i < |calls| && calls[i].reply.Done? }

  function Failures(calls: seq<Call>): set<nat> { set i: nat | i < |calls| && Ordinary(calls[i].reply) }

  lemma JudgedIs(calls: seq<Call>)
    ensures Judged(calls, Applied) == Accepted(calls) && Judged(calls, Failed) == Failures(calls)
  {
    forall i: nat | i < |calls|
      ensures Judge(calls[i].reply) == Applied <==> calls[i].reply.Done?
      ensures Judge(calls[i].reply) == Failed <==> Ordinary(calls[i].reply)
    {
      VerdictOf(calls[i].reply);
    }
  }

  predicate Fails(calls: seq<Call>, e: CallError) {
    exists i :: 0 <= i < |calls| && calls[i].reply == Failure(e) && Ordinary(calls[i].reply)
  }

  lemma {:induction false} ErrorsAreOrdinary(calls: seq<Call>, e: CallError)
    ensures e in Errors(calls) <==> Fails(calls, e)
  {
    if calls != [] {
      var front, n := calls[..|calls| - 1], |calls| - 1;
      ErrorsAreOrdinary(front, e);
      VerdictOf(calls[n].reply);
      if i :| 0 <= i < |front| && front[i].reply == Failure(e) && Ordinary(front[i].reply) {
        assert calls[i].reply == Failure(e);
      }
    }
  }

  // Whatever ended the call, its result holds the operations of the last listing, counts
  // the accepted calls and the ordinary failures among the calls for them, and keeps the
  // errors of just those.
  lemma ResultCounts(des: seq<DesiredUser>, opts: SyncOptions, run: seq<Session>, res: Result, end: Ending,
                     e: CallError)
    requires Accounts(des, opts, run, res, end) && run != []
    ensures var s := run[|run| - 1];
            && res.ops == Ops(des, opts, s)
            && res.applied == |Accepted(s.calls)| && res.failed == |Failures(s.calls)|
            && (e in res.errors <==> Fails(s.calls, e))
  {
    var s := run[|run| - 1];
    AccountsChain(des, opts, run, res, end);
    EndTallies(des, opts, s, res, end);
    CountIsNumber(s.calls, Applied);
    CountIsNumber(s.calls, Failed);
    JudgedIs(s.calls);
    ErrorsAreOrdinary(s.calls, e);
  }

  lemma EndTallies(des: seq<DesiredUser>, opts: SyncOptions, s: Session, res: Result, end: Ending)
    requires Ends(des, opts, s, res, end) || res == Tally(Ops(des, opts, s), s.calls)
    ensures res.ops == Ops(des, opts, s) && res.errors == Errors(s.calls)
    ensures res.applied == Count(s.calls, Applied) && res.failed == Count(s.calls, Failed)
  {
  }

  // ---- When a run stops ----

  // The attempt would delete too many, and nobody forces it.
  predicate Held(des: seq<DesiredUser>, opts: SyncOptions, s: Session) {
    !opts.force && TooMany(|Doomed(des, Prefix(opts), s.listed)|, |Managed(Prefix(opts), s.listed)|, opts.massDelete)
  }

  lemma HeldIsGuarded(des: seq<DesiredUser>, opts: SyncOptions, s: Session)
    requires DistinctDesired(des) && Lists(s.listing, s.listed)
    ensures Guarded(des, opts, s) <==> Held(des, opts, s)
  {
    GuardExactly(des, s.listing, opts.massDelete, s.listed);
  }

  // What the bounds on deletes speak of is the guard's own measure.
  lemma WithinGuardIs(d: nat, t: nat, opts: MassDeleteOptions)
    ensures WithinGuard(d, t, opts) <==> !TooMany(d, t, opts)
  {
    FractionExceeds(d, t, if opts.fractionThreshold == 0.0 then 0.5 else opts.fractionThreshold);
  }

  // A run is quiet when all foreign writes of its attempts are counted as none.
  lemma QuietMeans(run: seq<Session>)
    ensures Quiet(run) <==>
            forall j :: 0 <= j < |run| ==> ForeignWrites(run[j].calls) == 0 && (j > 0 ==> run[j].foreign == 0)
  {
    forall j | 0 <= j < |run|
      ensures NoForeign(run[j].calls) <==> ForeignWrites(run[j].calls) == 0
    {
      NoForeignWrites(run[j].calls);
    }
  }

  // A call is aborted exactly when its last listing shows too many deletes and it is not
  // forced; else, in shadow mode, it ends there.
  lemma AbortsExactly(des: seq<DesiredUser>, opts: SyncOptions, run: seq<Session>, res: Result, end: Ending)
    requires DistinctDesired(des) && Accounts(des, opts, run, res, end)
    ensures end == Aborted <==> run != [] && Held(des, opts, run[|run| - 1])
    ensures end == Dry <==> run != [] && !Held(des, opts, run[|run| - 1]) && opts.mode == "shadow"
    ensures res.aborted <==> end == Aborted
    ensures opts.force ==> end != Aborted
  {
    AccountsChain(des, opts, run, res, end);
    if run != [] {
      assert Link(des, opts, run, |run| - 1);
      HeldIsGuarded(des, opts, run[|run| - 1]);
    }
  }

  lemma EndSends(des: seq<DesiredUser>, opts: SyncOptions, s: Session, res: Result, end: Ending)
    requires Retry(des, opts, s) || Ends(des, opts, s, res, end)
    ensures s.calls != [] <==> Ops(des, opts, s) != [] && !Guarded(des, opts, s) && opts.mode != "shadow"
  {
  }

  // An attempt with something to do sends something, unless it is held or in shadow mode.
  lemma SendsExactly(des: seq<DesiredUser>, opts: SyncOptions, run: seq<Session>, res: Result, end: Ending, j: nat)
    requires DistinctDesired(des) && Accounts(des, opts, run, res, end) && j < |run|
    ensures run[j].calls != [] <==>
            Ops(des, opts, run[j]) != [] && !Held(des, opts, run[j]) && opts.mode != "shadow"
  {
    AccountsChain(des, opts, run, res, end);
    assert Link(des, opts, run, j);
    EndSends(des, opts, run[j], res, end);
    HeldIsGuarded(des, opts, run[j]);
  }

  // The attempt ended in a conflict.
  predicate Conflicts(s: Session) { s.calls != [] && SaysConflict(LastReply(s)) }

  predicate AllConflict(run: seq<Session>) {
    forall j :: 0 <= j < |run| ==> Conflicts(run[j])
  }

  lemma RetryConflicts(des: seq<DesiredUser>, opts: SyncOptions, s: Session)
    ensures Retry(des, opts, s) ==> Conflicts(s)
    ensures Conflicts(s) ==> LastVerdict(s.calls) == Conflict
  {
    if s.calls != [] {
      VerdictOf(LastReply(s));
    }
  }

  // A call gives up on conflicts after the configured retries, three if none are
  // configured, and never makes more attempts than one beyond them; all its attempts but
  // the last ended in a conflict.
  lemma GivesUpExactly(des: seq<DesiredUser>, opts: SyncOptions, run: seq<Session>, res: Result, end: Ending)
    requires Accounts(des, opts, run, res, end)
    ensures var most := if opts.maxConflictRetries == 0 then 4
                        else if opts.maxConflictRetries < 0 then 0 else opts.maxConflictRetries + 1;
            |run| <= most && (end == Conflicted <==> |run| == most && AllConflict(run))
    ensures ErrorOf(end) == ConflictsExhausted <==> end == Conflicted
    ensures run != [] ==> AllConflict(run[..|run| - 1])
  {
    AccountsChain(des, opts, run, res, end);
    forall j | 0 <= j < |run| - 1
      ensures Conflicts(run[j])
    {
      assert Link(des, opts, run, j);
      RetryConflicts(des, opts, run[j]);
    }
    if run != [] {
      RetryConflicts(des, opts, run[|run| - 1]);
    }
  }

  // ---- What is left ----

  // After a run without error, abort or failure, every user is as the last listing and
  // the desired users determine, secret and expiration text included.
  lemma RunOutcome(des: seq<DesiredUser>, opts: SyncOptions, run: seq<Session>, res: Result, n: string)
    requires DistinctDesired(des) && Accounts(des, opts, run, res, Finished) && res.failed == 0
    ensures var s := run[|run| - 1];
            At(End(s), n) ==
            match DesiredFor(des, n)
            case None => if Prefix(opts) <= n then None else At(s.listed, n)
            case Some(d) =>
              if n !in s.listed then Some(Record(d.secret, true, d.expiration, d.maxTcpConns))
              else
                var r := s.listed[n];
                var same := ExpirationEquals(d.expiration, r.expiration);
                Some(Record(r.secret, true, if same then r.expiration else d.expiration, d.maxTcpConns))
  {
    var s := run[|run| - 1];
    Serialisable(des, opts, run, res);
    AccountsChain(des, opts, run, res, Finished);
    assert Link(des, opts, run, |run| - 1);
    DiffOutcome(des, s.listing, Prefix(opts), s.listed, n);
  }

  // ---- The budget of conflicts is exact ----

  // Telemt and the network may do to a call whatever is no lie about its class.
  lemma EveryFate(e: CallError, reply: Reply)
    requires reply == Failure(e) && !SaysDone(reply) && !SaysConflict(reply)
    ensures Possible(Delivered) && Possible(Refused(e))
    ensures !SaysReadOnly(reply) ==> Possible(ReplyLost(e))
  {
  }

  const NEW_USER := DesiredUser("a", "", None, None)

  const STALE := Failure(ApiError(409, "revision_conflict"))

  // Somebody adds a user between the listing and the only call, which conflicts.
  function Disturbed(): Session {
    var other: Config := map["z" := Record("", true, None, None)];
    Session(1, map[], [],
            [Call(1, other, RequestOf(CreateOp(NEW_USER)), Digest(map[]), Delivered, STALE, other)])
  }

  lemma DisturbedIsValid()
    ensures ValidSession(Disturbed()) && Disturbances(Disturbed().calls) == 1
    ensures LastVerdict(Disturbed().calls) == Conflict
  {
    var calls := Disturbed().calls;
    assert calls[..0] == [];
    assert Digest(map[]) != Digest(calls[0].before) by {
      assert "z" in calls[0].before;
    }
    CodeTells(StaleRevision);
    VerdictOf(STALE);
    ClassesOf(STALE.error, StaleRevision);
  }

  lemma OneCreate(prefix: string)
    ensures var ops := DiffOf([NEW_USER], [], prefix);
            ops == [CreateOp(NEW_USER)] && CountOps(ops, OpDelete) == 0
  {
    assert [NEW_USER][..0] == [];
    assert Creates([NEW_USER], map[]) == Creates([], map[]) + [CreateOp(NEW_USER)];
    assert Patches([NEW_USER], map[]) == Patches([], map[]) + [];
    assert [CreateOp(NEW_USER)][..0] == [];
  }

  lemma DisturbedFollows(opts: SyncOptions)
    requires opts.mode != "shadow" && !NegativeGuard(opts.massDelete)
    ensures Retry([NEW_USER], opts, Disturbed())
  {
    var s := Disturbed();
    OneCreate(Prefix(opts));
    DisturbedIsValid();
    assert Ops([NEW_USER], opts, s) == [CreateOp(NEW_USER)];
    assert Fraction(0, 0) == 0.0 && !Guarded([NEW_USER], opts, s);
    FollowsSnoc(Ops([NEW_USER], opts, s), s.listed, [], s.calls[0]);
    assert s.calls == [] + [s.calls[0]];
  }

  lemma {:induction false} DisturbedAgain(opts: SyncOptions, n: nat) returns (run: seq<Session>)
    requires opts.mode != "shadow" && !NegativeGuard(opts.massDelete)
    ensures |run| == n == RunDisturbances(run) && ValidLog(run) && Retried([NEW_USER], opts, run)
  {
    run := [];
    if n > 0 {
      var front := DisturbedAgain(opts, n - 1);
      DisturbedIsValid();
      DisturbedFollows(opts);
      run := front + [Disturbed()];
      assert run[..n - 1] == front;
    }
  }

  // As many foreign writes as attempts can make a call give up: one more than the
  // retries, and not fewer.
  lemma BudgetIsExact(opts: SyncOptions) returns (run: seq<Session>)
    requires opts.mode != "shadow" && !NegativeGuard(opts.massDelete)
    ensures Accounts([NEW_USER], opts, run, LeftOver([NEW_USER], opts, run), Conflicted)
    ensures RunDisturbances(run) == Attempts(opts)
  {
    run := DisturbedAgain(opts, Attempts(opts));
  }
}
