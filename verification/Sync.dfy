// internal/sync/sync.go: one synchronisation of a node, and the account of it
// that its result gives.
module Sync {
  import opened Options
  import opened Users
  import opened Configs
  import opened Diff
  import opened Wire
  import opened Telemt

  const SHADOW := "shadow"

  datatype SyncOptions = SyncOptions(mode: string, massDelete: MassDeleteOptions, force: bool, maxConflictRetries: int)

  datatype Result = Result(ops: seq<SyncOp>, applied: nat, skipped: nat, failed: nat,
                           errors: seq<CallError>, aborted: bool)

  datatype SyncError = NoError | DesiredFailed | ListFailed | NodeReadOnly(error: CallError) | ConflictsExhausted

  const EMPTY_RESULT := Result([], 0, 0, 0, [], false)

  function MaxRetry(opts: SyncOptions): int {
    if opts.maxConflictRetries == 0 then 3 else opts.maxConflictRetries
  }

  function Prefix(opts: SyncOptions): string { EffectivePrefix(opts.massDelete.managedPrefix) }

  // ---- The account ----

  // How the op loop takes a reply.
  datatype Verdict = Applied | Skipped | Locked | Conflict | Failed

  function Judge(r: Reply): Verdict {
    match r
    case Done(_) => Applied
    case Failure(e) =>
      if AlreadyDone(e) then Skipped
      else if ReadOnly(e) then Locked
      else if RevisionConflict(e) then Conflict
      else Failed
  }

  predicate Stops(v: Verdict) { v == Locked || v == Conflict }

  function Count(calls: seq<Call>, v: Verdict): nat {
    if calls == [] then 0
    else Count(calls[..|calls| - 1], v) + if Judge(calls[|calls| - 1].reply) == v then 1 else 0
  }

  function Errors(calls: seq<Call>): seq<CallError> {
    if calls == [] then []
    else
      var r := calls[|calls| - 1].reply;
      Errors(calls[..|calls| - 1]) + if Judge(r) == Failed then [r.error] else []
  }

  function Tally(ops: seq<SyncOp>, calls: seq<Call>): Result {
    Result(ops, Count(calls, Applied), Count(calls, Skipped), Count(calls, Failed), Errors(calls), false)
  }

  // The revision in hand: that of the last accepted call, at first that of the listing.
  function RevAfter(start: Revision, calls: seq<Call>): Revision {
    if calls == [] then start
    else if calls[|calls| - 1].reply.Done? then calls[|calls| - 1].reply.revision
    else RevAfter(start, calls[..|calls| - 1])
  }

  function Ops(des: seq<DesiredUser>, opts: SyncOptions, s: Session): seq<SyncOp> {
    DiffOf(des, s.listing, Prefix(opts))
  }

  function LastVerdict(calls: seq<Call>): Verdict {
    if calls == [] then Applied else Judge(calls[|calls| - 1].reply)
  }

  // The calls are the operations in order, each with the revision in hand, and only
  // the last one can have stopped the loop.
  predicate Follows(ops: seq<SyncOp>, listed: Config, calls: seq<Call>) {
    |calls| <= |ops| &&
    (calls == [] ||
     var front, k := calls[..|calls| - 1], calls[|calls| - 1];
     && Follows(ops, listed, front) && !Stops(LastVerdict(front))
     && k.request == RequestOf(ops[|front|]) && k.ifMatch == RevAfter(Digest(listed), front))
  }

  predicate Guarded(des: seq<DesiredUser>, opts: SyncOptions, s: Session) {
    MassDelete(Ops(des, opts, s), s.listing, opts.massDelete) && !opts.force
  }

  // An attempt the guard let through to its operations.
  predicate Attempted(des: seq<DesiredUser>, opts: SyncOptions, s: Session) {
    !Guarded(des, opts, s) && opts.mode != SHADOW && Follows(Ops(des, opts, s), s.listed, s.calls)
  }

  datatype Ending = Unlisted | Aborted | Dry | Finished | LockedOut(error: CallError) | Conflicted

  // How the attempt s ended, and the result that leaves.
  predicate Ends(des: seq<DesiredUser>, opts: SyncOptions, s: Session, res: Result, end: Ending) {
    var ops := Ops(des, opts, s);
    match end
    case Unlisted => false
    case Aborted => Guarded(des, opts, s) && s.calls == [] && res == Result(ops, 0, 0, 0, [], true)
    case Dry => !Guarded(des, opts, s) && opts.mode == SHADOW && s.calls == [] && res == Result(ops, 0, 0, 0, [], false)
    case Finished =>
      Attempted(des, opts, s) && res == Tally(ops, s.calls) && |s.calls| == |ops| && !Stops(LastVerdict(s.calls))
    case LockedOut(e) =>
      Attempted(des, opts, s) && res == Tally(ops, s.calls) && LastVerdict(s.calls) == Locked
      && s.calls[|s.calls| - 1].reply == Failure(e)
    case Conflicted =>
      Attempted(des, opts, s) && res == Tally(ops, s.calls) && LastVerdict(s.calls) == Conflict
  }

  function Attempts(opts: SyncOptions): nat {
    if MaxRetry(opts) < 0 then 0 else MaxRetry(opts) + 1
  }

  // Attempts that all ended in a conflict, and the result left over from the last.
  predicate Retried(des: seq<DesiredUser>, opts: SyncOptions, run: seq<Session>) {
    run == [] ||
    var front, s := run[..|run| - 1], run[|run| - 1];
    Retried(des, opts, front) && Attempted(des, opts, s) && LastVerdict(s.calls) == Conflict
  }

  function LeftOver(des: seq<DesiredUser>, opts: SyncOptions, run: seq<Session>): Result {
    if run == [] then EMPTY_RESULT
    else
      var s := run[|run| - 1];
      Tally(Ops(des, opts, s), s.calls)
  }

  function ErrorOf(end: Ending): SyncError {
    match end
    case Unlisted => ListFailed
    case Conflicted => ConflictsExhausted
    case LockedOut(e) => NodeReadOnly(e)
    case _ => NoError
  }

  // What a call of SyncNode did (run: its listings with their calls) against what it
  // returned: it gave up listing or retrying, or its last attempt ended it.
  predicate Accounts(des: seq<DesiredUser>, opts: SyncOptions, run: seq<Session>, res: Result, end: Ending) {
    && ValidLog(run) && |run| <= Attempts(opts)
    && if end == Unlisted || end == Conflicted
       then Retried(des, opts, run) && res == LeftOver(des, opts, run)
            && (|run| == Attempts(opts) <==> end == Conflicted)
       else run != [] && Retried(des, opts, run[..|run| - 1]) && Ends(des, opts, run[|run| - 1], res, end)
  }

  lemma {:induction false} TallySnoc(ops: seq<SyncOp>, calls: seq<Call>, k: Call)
    ensures Tally(ops, calls + [k]) == Counted(Tally(ops, calls), k.reply)
  {
    assert (calls + [k])[..|calls|] == calls;
  }

  lemma FollowsSnoc(ops: seq<SyncOp>, listed: Config, calls: seq<Call>, k: Call)
    requires Follows(ops, listed, calls) && |calls| < |ops| && !Stops(LastVerdict(calls))
    requires k.request == RequestOf(ops[|calls|]) && k.ifMatch == RevAfter(Digest(listed), calls)
    ensures Follows(ops, listed, calls + [k])
    ensures RevAfter(Digest(listed), calls + [k]) ==
            if k.reply.Done? then k.reply.revision else RevAfter(Digest(listed), calls)
  {
  }

  // The result with one more call counted.
  function Counted(res: Result, r: Reply): Result {
    match Judge(r)
    case Applied => res.(applied := res.applied + 1)
    case Skipped => res.(skipped := res.skipped + 1)
    case Failed => res.(failed := res.failed + 1, errors := res.errors + [r.error])
    case _ => res
  }

  // The op loop between two operations.
  predicate Looping(ops: seq<SyncOp>, listed: Config, calls: seq<Call>, rev: Revision, res: Result) {
    && Follows(ops, listed, calls) && !Stops(LastVerdict(calls))
    && rev == RevAfter(Digest(listed), calls) && res == Tally(ops, calls)
  }

  // The op loop with one more call behind it, res being the result that counts it.
  predicate Called(ops: seq<SyncOp>, listed: Config, calls: seq<Call>, rev: Revision, res: Result, reply: Reply) {
    if Stops(Judge(reply))
    then Follows(ops, listed, calls) && res == Tally(ops, calls) && LastVerdict(calls) == Judge(reply)
         && calls[|calls| - 1].reply == reply
    else Looping(ops, listed, calls, if reply.Done? then reply.revision else rev, res)
  }

  lemma LoopStep(ops: seq<SyncOp>, listed: Config, calls: seq<Call>, rev: Revision, res: Result, k: Call)
    requires Looping(ops, listed, calls, rev, res) && |calls| < |ops|
    requires k.request == RequestOf(ops[|calls|]) && k.ifMatch == rev
    ensures Called(ops, listed, calls + [k], rev, Counted(res, k.reply), k.reply)
  {
    TallySnoc(ops, calls, k);
    FollowsSnoc(ops, listed, calls, k);
  }

  // What SyncNode keeps between its attempts: all of them in the log, and retried.
  predicate Trying(des: seq<DesiredUser>, opts: SyncOptions, base: seq<Session>, log: seq<Session>,
                   run: seq<Session>, res: Result) {
    log == base + run && ValidLog(run) && Retried(des, opts, run) && res == LeftOver(des, opts, run)
  }

  lemma RunSnoc(base: seq<Session>, run: seq<Session>, s: Session)
    requires ValidLog(base + run + [s])
    ensures ValidLog(run + [s]) && base + run + [s] == base + (run + [s]) && (run + [s])[..|run|] == run
  {
    assert base + run + [s] == base + (run + [s]);
    LogSuffix(base, run + [s]);
  }

  // An attempt that ended in a conflict is followed by another, if there is one left.
  lemma AnotherAttempt(des: seq<DesiredUser>, opts: SyncOptions, base: seq<Session>, run: seq<Session>, before: Result,
                       s: Session, res: Result)
    requires Trying(des, opts, base, base + run, run, before)
    requires ValidLog(base + run + [s]) && Ends(des, opts, s, res, Conflicted)
    ensures Trying(des, opts, base, base + run + [s], run + [s], res)
  {
    RunSnoc(base, run, s);
  }

  // Any other end is that of the call.
  lemma LastAttempt(des: seq<DesiredUser>, opts: SyncOptions, base: seq<Session>, run: seq<Session>, before: Result,
                    s: Session, res: Result, end: Ending)
    requires Trying(des, opts, base, base + run, run, before) && |run| < Attempts(opts)
    requires ValidLog(base + run + [s]) && Ends(des, opts, s, res, end) && !end.Conflicted?
    ensures Accounts(des, opts, run + [s], res, end) && base + run + [s] == base + (run + [s])
  {
    RunSnoc(base, run, s);
  }

  // The next operation is sent with the revision in hand.
  method Send(node: Node, ops: seq<SyncOp>, before: seq<Call>, rev: Revision, ghost res: Result)
    returns (reply: Reply, calls: seq<Call>)
    requires node.Valid() && node.current.Some? && node.current.value.calls == before && |before| < |ops|
    requires Looping(ops, node.current.value.listed, before, rev, res)
    modifies node
    ensures node.Valid() && node.past == old(node.past) && |calls| == |before| + 1
    ensures node.current == Some(old(node.current).value.(calls := calls))
    ensures Called(ops, node.current.value.listed, calls, rev, Counted(res, reply), reply)
  {
    var k;
    reply, k := ApplyOp(node, ops[|before|], rev);
    calls := before + [k];
    LoopStep(ops, node.current.value.listed, before, rev, res, k);
  }

  // How the loop takes a reply: counted, or a reason to stop.
  method Take(reply: Reply, rev: Revision, res: Result)
    returns (newRev: Revision, counted: Result, stop: Option<Ending>)
    ensures newRev == (if reply.Done? then reply.revision else rev) && counted == Counted(res, reply)
    ensures match Judge(reply)
            case Locked => stop == Some(LockedOut(reply.error))
            case Conflict => stop == Some(Conflicted)
            case _ => stop == None
  {
    newRev, counted, stop := rev, res, None;
    if reply.Failure? {
      var e := reply.error;
      if AlreadyDone(e) {
        counted := res.(skipped := res.skipped + 1);
      } else if ReadOnly(e) {
        stop := Some(LockedOut(e));
      } else if RevisionConflict(e) {
        stop := Some(Conflicted);
      } else {
        counted := res.(failed := res.failed + 1, errors := res.errors + [e]);
      }
      return;
    }
    newRev := reply.revision;
    counted := res.(applied := res.applied + 1);
  }

  // How the op loop ended and with what result.
  predicate LoopEnds(ops: seq<SyncOp>, listed: Config, calls: seq<Call>, res: Result, end: Ending) {
    && Follows(ops, listed, calls) && res == Tally(ops, calls)
    && match end
       case LockedOut(e) => LastVerdict(calls) == Locked && calls[|calls| - 1].reply == Failure(e)
       case Conflicted => LastVerdict(calls) == Conflict
       case Finished => |calls| == |ops| && !Stops(LastVerdict(calls))
       case _ => false
  }

  lemma LoopStarts(ops: seq<SyncOp>, listed: Config)
    ensures Looping(ops, listed, [], Digest(listed), Result(ops, 0, 0, 0, [], false))
  {
  }

  lemma LoopStops(ops: seq<SyncOp>, listed: Config, calls: seq<Call>, rev: Revision, res: Result, reply: Reply,
                  end: Ending)
    requires calls != [] && Called(ops, listed, calls, rev, res, reply)
    requires match Judge(reply)
             case Locked => end == LockedOut(reply.error)
             case Conflict => end == Conflicted
             case _ => false
    ensures LoopEnds(ops, listed, calls, res, end)
  {
  }

  // The op loop: SyncNode's inner loop over the operations of one attempt.
  method ApplyOps(node: Node, ops: seq<SyncOp>, start: Revision)
    returns (res: Result, end: Ending, calls: seq<Call>)
    requires node.Valid() && node.current.Some? && node.current.value.calls == []
    requires start == Digest(node.current.value.listed)
    modifies node
    ensures node.Valid() && node.past == old(node.past)
    ensures node.current == Some(old(node.current).value.(calls := calls))
    ensures LoopEnds(ops, node.current.value.listed, calls, res, end)
  {
    res := Result(ops, 0, 0, 0, [], false);
    var rev := start;
    calls := [];
    ghost var s := node.current.value;
    LoopStarts(ops, s.listed);
    for i := 0 to |ops|
      invariant node.Valid() && node.past == old(node.past) && node.current == Some(s.(calls := calls))
      invariant |calls| == i && Looping(ops, s.listed, calls, rev, res)
    {
      var reply, stop;
      reply, calls := Send(node, ops, calls, rev, res);
      ghost var before := rev;
      rev, res, stop := Take(reply, rev, res);
      if stop.Some? {
        end := stop.value;
        LoopStops(ops, s.listed, calls, before, res, reply, end);
        return;
      }
    }
    end := Finished;
  }

  lemma LoopEndIsEnd(des: seq<DesiredUser>, opts: SyncOptions, s: Session, res: Result, end: Ending)
    requires LoopEnds(Ops(des, opts, s), s.listed, s.calls, res, end)
    requires !Guarded(des, opts, s) && opts.mode != SHADOW
    ensures Ends(des, opts, s, res, end)
  {
  }

  // One attempt: list, diff, guard, apply. A failed listing leaves the last result.
  method Attempt(des: seq<DesiredUser>, node: Node, opts: SyncOptions, last: Result) returns (res: Result, end: Ending)
    requires node.Valid()
    modifies node
    ensures node.Valid()
    ensures end == Unlisted ==> node.Log() == old(node.Log()) && res == last
    ensures end != Unlisted ==> node.past == old(node.Log()) && node.current.Some?
                                && Ends(des, opts, node.current.value, res, end)
  {
    var listed := node.ListUsers();
    if listed.None? {
      return last, Unlisted;
    }
    var (remote, rev) := listed.value;
    var ops := ComputeDiff(des, remote, opts.massDelete.managedPrefix);
    var mass := IsMassDelete(ops, remote, opts.massDelete);
    if mass && !opts.force {
      return Result(ops, 0, 0, 0, [], true), Aborted;
    }
    if opts.mode == SHADOW {
      return Result(ops, 0, 0, 0, [], false), Dry;
    }
    var calls;
    res, end, calls := ApplyOps(node, ops, rev);
    LoopEndIsEnd(des, opts, node.current.value, res, end);
  }

  // One turn of the retry loop: the attempt, added to those before it.
  method Turn(des: seq<DesiredUser>, node: Node, opts: SyncOptions, ghost base: seq<Session>,
              before: seq<Session>, last: Result) returns (res: Result, end: Ending, run: seq<Session>)
    requires node.Valid() && |before| < Attempts(opts)
    requires Trying(des, opts, base, node.Log(), before, last)
    modifies node
    ensures node.Valid()
    ensures if end.Conflicted? then Trying(des, opts, base, node.Log(), run, res) && |run| == |before| + 1
            else node.Log() == base + run && Accounts(des, opts, run, res, end)
  {
    res, end := Attempt(des, node, opts, last);
    run := before;
    if end != Unlisted {
      var s := node.current.value;
      run := before + [s];
      if end.Conflicted? {
        AnotherAttempt(des, opts, base, before, last, s, res);
      } else {
        LastAttempt(des, opts, base, before, last, s, res, end);
      }
    }
  }

  method SyncNode(desired: Option<seq<DesiredUser>>, node: Node, opts: SyncOptions)
    returns (res: Result, err: SyncError, run: seq<Session>, end: Ending)
    requires node.Valid()
    modifies node
    ensures node.Valid() && node.Log() == old(node.Log()) + run
    ensures desired.None? ==> err == DesiredFailed && run == [] && res == EMPTY_RESULT
    ensures desired.Some? ==> err == ErrorOf(end) && Accounts(desired.value, opts, run, res, end)
  {
    run, res, end := [], EMPTY_RESULT, Conflicted;
    if desired.None? {
      return res, DesiredFailed, run, end;
    }
    var des := desired.value;
    ghost var base := node.Log();
    var maxRetry := opts.maxConflictRetries;
    if maxRetry == 0 {
      maxRetry := 3;
    }
    var attempt := 0;
    while attempt <= maxRetry
      invariant node.Valid() && |run| == attempt <= Attempts(opts) && end == Conflicted
      invariant Trying(des, opts, base, node.Log(), run, res)
      decreases maxRetry - attempt
    {
      res, end, run := Turn(des, node, opts, base, run, res);
      if !end.Conflicted? {
        return res, ErrorOf(end), run, end;
      }
      attempt := attempt + 1;
    }
    err := ConflictsExhausted;
  }
}
