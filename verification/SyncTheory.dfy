// What every call of SyncNode guarantees, whatever others write to the node and
// whatever is lost on the way. The lemmas speak of des, opts, run, res and end as
// SyncNode's contract ties them together.
module SyncTheory {
  import opened Options
  import opened Users
  import opened Configs
  import opened Diff
  import opened DiffTheory
  import opened DiffProgress
  import opened DiffMeaning
  import opened Wire
  import opened Telemt
  import opened Sync
  import opened OpLoop

  lemma DiffFits(des: seq<DesiredUser>, listing: seq<RemoteUser>, prefix: string, c: Config)
    requires DistinctDesired(des) && Lists(listing, c)
    ensures Fitting(DiffOf(des, listing, prefix), c)
  {
    var ops := DiffOf(des, listing, prefix);
    DiffDistinct(des, listing, prefix);
    forall i | 0 <= i < |ops|
      ensures Fits(ops[i], c)
    {
      DiffMember(des, listing, prefix, c, ops[i]);
    }
  }

  // An attempt whose calls are the diff of its listing, as far as they went.
  predicate Sound(des: seq<DesiredUser>, opts: SyncOptions, s: Session) {
    ValidSession(s) && Follows(Ops(des, opts, s), s.listed, s.calls)
  }

  lemma SoundIsTrail(des: seq<DesiredUser>, opts: SyncOptions, s: Session)
    requires DistinctDesired(des) && Sound(des, opts, s)
    ensures Trail(Ops(des, opts, s), s.listed, s.calls)
  {
    DiffFits(des, s.listing, Prefix(opts), s.listed);
  }

  // Attempt j of a run, its place in the log, and why it was followed by another.
  predicate Link(des: seq<DesiredUser>, opts: SyncOptions, run: seq<Session>, j: nat)
    requires j < |run|
  {
    && Sound(des, opts, run[j])
    && (j > 0 && run[j].foreign == 0 ==> run[j].listed == End(run[j - 1]))
    && (j + 1 < |run| ==> Retry(des, opts, run[j]))
  }

  predicate Retry(des: seq<DesiredUser>, opts: SyncOptions, s: Session) {
    Attempted(des, opts, s) && LastVerdict(s.calls) == Conflict
  }

  // The attempts of a run, one after the other.
  predicate Chain(des: seq<DesiredUser>, opts: SyncOptions, run: seq<Session>) {
    forall j :: 0 <= j < |run| ==> Link(des, opts, run, j)
  }

  lemma ChainSnoc(des: seq<DesiredUser>, opts: SyncOptions, run: seq<Session>)
    requires run != [] && Chain(des, opts, run[..|run| - 1])
    requires |run| > 1 ==> Retry(des, opts, run[|run| - 2])
    requires Sound(des, opts, run[|run| - 1]) && Linked(run[..|run| - 1], run[|run| - 1])
    ensures Chain(des, opts, run)
  {
    var front := run[..|run| - 1];
    forall j | 0 <= j < |run|
      ensures Link(des, opts, run, j)
    {
      if j < |front| {
        assert Link(des, opts, front, j);
        assert front[j] == run[j] && (j > 0 ==> front[j - 1] == run[j - 1]);
      }
    }
  }

  lemma {:induction false} RetriedChain(des: seq<DesiredUser>, opts: SyncOptions, run: seq<Session>)
    requires ValidLog(run) && Retried(des, opts, run)
    ensures Chain(des, opts, run) && (run != [] ==> Retry(des, opts, run[|run| - 1]))
  {
    if run != [] {
      RetriedChain(des, opts, run[..|run| - 1]);
      ChainSnoc(des, opts, run);
    }
  }

  lemma EndsIsSound(des: seq<DesiredUser>, opts: SyncOptions, s: Session, res: Result, end: Ending)
    requires ValidSession(s) && Ends(des, opts, s, res, end)
    ensures Sound(des, opts, s)
  {
  }

  // The attempts of any call of SyncNode form a chain; the last one ended it.
  lemma AccountsChain(des: seq<DesiredUser>, opts: SyncOptions, run: seq<Session>, res: Result, end: Ending)
    requires Accounts(des, opts, run, res, end)
    ensures Chain(des, opts, run)
    ensures if end == Unlisted || end == Conflicted then run != [] ==> Retry(des, opts, run[|run| - 1])
            else run != [] && Ends(des, opts, run[|run| - 1], res, end)
  {
    if end == Unlisted || end == Conflicted {
      RetriedChain(des, opts, run);
    } else {
      RetriedChain(des, opts, run[..|run| - 1]);
      EndsIsSound(des, opts, run[|run| - 1], res, end);
      ChainSnoc(des, opts, run);
    }
  }

  // ---- A clean run ----

  lemma CleanAttempt(des: seq<DesiredUser>, opts: SyncOptions, s: Session)
    requires DistinctDesired(des) && Sound(des, opts, s)
    requires |s.calls| == |Ops(des, opts, s)| && !Stops(LastVerdict(s.calls)) && Count(s.calls, Failed) == 0
    ensures var ops := Ops(des, opts, s);
            Serial(ops, s.listed, s.calls) && End(s) == EffectAll(s.listed, ops) && Count(s.calls, Applied) == |ops|
  {
    var ops := Ops(des, opts, s);
    SoundIsTrail(des, opts, s);
    NoFailureIsSerial(ops, s.listed, s.calls);
    NeverSkipped(ops, s.listed, s.calls);
    CountsAddUp(ops, s.listed, s.calls);
    assert ops[..|ops|] == ops;
  }

  // A run without error, abort or failure took its node through exactly the tables of its
  // operations applied one by one to the last listing, as seen just before and just after
  // every call, for every interleaving of other writers, changes that were undone
  // included; so it ended with all of them applied, and converged, every new user having
  // the desired secret.
  lemma Serialisable(des: seq<DesiredUser>, opts: SyncOptions, run: seq<Session>, res: Result)
    requires DistinctDesired(des) && Accounts(des, opts, run, res, Finished) && res.failed == 0
    ensures var s := run[|run| - 1];
            && res.ops == Ops(des, opts, s) && |s.calls| == |res.ops| == res.applied
            && Serial(res.ops, s.listed, s.calls)
            && End(s) == EffectAll(s.listed, res.ops)
            && Converged(des, Prefix(opts), End(s))
            && forall d :: d in des && d.username !in s.listed ==>
                 At(End(s), d.username) == Some(Record(d.secret, true, d.expiration, d.maxTcpConns))
  {
    var s := run[|run| - 1];
    AccountsChain(des, opts, run, res, Finished);
    assert Link(des, opts, run, |run| - 1);
    CleanAttempt(des, opts, s);
    DiffConverges(des, s.listing, Prefix(opts), s.listed);
    forall d | d in des && d.username !in s.listed
      ensures At(End(s), d.username) == Some(Record(d.secret, true, d.expiration, d.maxTcpConns))
    {
      DesiredForEach(des, d);
      DiffOutcome(des, s.listing, Prefix(opts), s.listed, d.username);
    }
  }

  lemma ConvergedAttempt(des: seq<DesiredUser>, opts: SyncOptions, s: Session)
    requires DistinctDesired(des) && Sound(des, opts, s) && Converged(des, Prefix(opts), s.listed)
    ensures Ops(des, opts, s) == [] && s.calls == [] && (Guarded(des, opts, s) ==> NegativeGuard(opts.massDelete))
  {
    EmptyDiffIsConverged(des, s.listing, Prefix(opts), s.listed);
    NoDeletesNoGuard(des, opts, s);
  }

  // The next run that lists the node as the clean run left it has nothing to do.
  lemma NextRunIsEmpty(des: seq<DesiredUser>, opts: SyncOptions, run: seq<Session>, res: Result,
                       opts': SyncOptions, run': seq<Session>, res': Result, end': Ending)
    requires DistinctDesired(des) && Accounts(des, opts, run, res, Finished) && res.failed == 0
    requires Accounts(des, opts', run', res', end') && run' != [] && Prefix(opts') == Prefix(opts)
    requires run'[0].listed == End(run[|run| - 1])
    ensures |run'| == 1 && run'[0].calls == [] && res'.ops == []
    ensures end' == Finished || end' == Dry || (end' == Aborted && NegativeGuard(opts'.massDelete))
  {
    Serialisable(des, opts, run, res);
    EmptyRun(des, opts', run', res', end');
  }

  lemma EmptyRun(des: seq<DesiredUser>, opts: SyncOptions, run: seq<Session>, res: Result, end: Ending)
    requires DistinctDesired(des) && Accounts(des, opts, run, res, end) && run != []
    requires Converged(des, Prefix(opts), run[0].listed)
    ensures |run| == 1 && run[0].calls == [] && res.ops == []
    ensures end == Finished || end == Dry || (end == Aborted && NegativeGuard(opts.massDelete))
  {
    AccountsChain(des, opts, run, res, end);
    assert Link(des, opts, run, 0);
    ConvergedAttempt(des, opts, run[0]);
  }

  // Only negative options make the guard stop a run that deletes nothing.
  predicate NegativeGuard(opts: MassDeleteOptions) { MinDeletes(opts) < 0 && Threshold(opts) < 0.0 }

  lemma NoDeletesNoGuard(des: seq<DesiredUser>, opts: SyncOptions, s: Session)
    requires Ops(des, opts, s) == []
    ensures Guarded(des, opts, s) ==> NegativeGuard(opts.massDelete)
  {
  }

  // ---- Accounting ----

  // Nothing is ever counted as skipped.
  lemma NothingSkipped(des: seq<DesiredUser>, opts: SyncOptions, run: seq<Session>, res: Result, end: Ending)
    requires DistinctDesired(des) && Accounts(des, opts, run, res, end)
    ensures res.skipped == 0
  {
    if run != [] {
      var s := run[|run| - 1];
      AccountsChain(des, opts, run, res, end);
      assert Link(des, opts, run, |run| - 1);
      SoundIsTrail(des, opts, s);
      NeverSkipped(Ops(des, opts, s), s.listed, s.calls);
    }
  }

  // The counters of a finished run cover its operations exactly; a conflict or a
  // read-only node leaves some uncounted; an aborted or shadow attempt sends nothing.
  lemma Accounting(des: seq<DesiredUser>, opts: SyncOptions, run: seq<Session>, res: Result, end: Ending)
    requires Accounts(des, opts, run, res, end)
    ensures |res.errors| == res.failed
    ensures end == Finished ==> res.applied + res.skipped + res.failed == |res.ops|
    ensures end.LockedOut? || ((end.Conflicted? || end.Unlisted?) && run != []) ==>
              res.applied + res.skipped + res.failed < |res.ops|
    ensures end.Conflicted? && run == [] ==> res == EMPTY_RESULT && MaxRetry(opts) < 0
    ensures end == Aborted || end == Dry ==> run[|run| - 1].calls == [] && res.applied + res.skipped + res.failed == 0
  {
    if run != [] {
      var s := run[|run| - 1];
      AccountsChain(des, opts, run, res, end);
      assert Link(des, opts, run, |run| - 1);
      CountsAddUp(Ops(des, opts, s), s.listed, s.calls);
    }
  }

  // In shadow mode no attempt sends anything, and there is at most one.
  lemma {:induction false} ShadowSendsNothing(des: seq<DesiredUser>, opts: SyncOptions, run: seq<Session>,
                                              res: Result, end: Ending)
    requires Accounts(des, opts, run, res, end) && opts.mode == SHADOW
    ensures |run| <= 1 && forall s :: s in run ==> s.calls == []
  {
    AccountsChain(des, opts, run, res, end);
    if run != [] {
      assert Link(des, opts, run, 0);
    }
  }

  // ---- Conflicts are paid for ----

  function RunDisturbances(run: seq<Session>): nat {
    if run == [] then 0 else RunDisturbances(run[..|run| - 1]) + Disturbances(run[|run| - 1].calls)
  }

  // An attempt only ends in a conflict if, between its listing and that conflict,
  // somebody else wrote or the reply of an applied call was lost.
  lemma ConflictIsCharged(des: seq<DesiredUser>, opts: SyncOptions, s: Session)
    requires DistinctDesired(des) && Sound(des, opts, s) && LastVerdict(s.calls) == Conflict
    ensures Disturbances(s.calls) >= 1
  {
    SoundIsTrail(des, opts, s);
    if Disturbances(s.calls) == 0 {
      UndisturbedBelief(Ops(des, opts, s), s.listed, s.calls);
    }
  }

  lemma {:induction false} RetriesAreCharged(des: seq<DesiredUser>, opts: SyncOptions, run: seq<Session>)
    requires DistinctDesired(des) && Chain(des, opts, run)
    ensures RunDisturbances(run) >= |run| - 1
    ensures run != [] && Retry(des, opts, run[|run| - 1]) ==> RunDisturbances(run) >= |run|
  {
    if run != [] {
      var n := |run| - 1;
      var front := run[..n];
      forall j | 0 <= j < n
        ensures Link(des, opts, front, j)
      {
        assert Link(des, opts, run, j);
      }
      RetriesAreCharged(des, opts, front);
      assert Link(des, opts, run, n) && (n > 0 ==> Link(des, opts, run, n - 1));
      if Retry(des, opts, run[n]) {
        ConflictIsCharged(des, opts, run[n]);
      }
    }
  }

  // Fewer disturbances than attempts: the call never gives up on conflicts. Each
  // attempt beyond the first has a disturbance of its own.
  lemma ConflictBudget(des: seq<DesiredUser>, opts: SyncOptions, run: seq<Session>, res: Result, end: Ending)
    requires DistinctDesired(des) && Accounts(des, opts, run, res, end)
    requires RunDisturbances(run) < Attempts(opts)
    ensures end != Conflicted && ErrorOf(end) != ConflictsExhausted
    ensures |run| <= RunDisturbances(run) + 1
  {
    AccountsChain(des, opts, run, res, end);
    RetriesAreCharged(des, opts, run);
  }

  // ---- Nothing goes wrong ----

  // Nothing is desired and the node has managed users only: all of them should go,
  // and telemt keeps the last.
  predicate WouldEmpty(des: seq<DesiredUser>, prefix: string, c: Config) {
    des == [] && c != map[] && forall n :: n in c ==> HasPrefix(n, prefix)
  }

  lemma OnlyLastIsLonely(des: seq<DesiredUser>, listing: seq<RemoteUser>, prefix: string, c: Config, i: nat)
    requires DistinctDesired(des) && Lists(listing, c) && i < |DiffOf(des, listing, prefix)|
    ensures var ops := DiffOf(des, listing, prefix);
            IsLast(EffectAll(c, ops[..i]), ops[i]) <==> WouldEmpty(des, prefix, c) && i == |ops| - 1
  {
    var ops := DiffOf(des, listing, prefix);
    DiffMember(des, listing, prefix, c, ops[i]);
    if ops[i].Delete? {
      DeleteOfLastUser(des, listing, prefix, c, i);
      assert ops[i].username in c;
    }
  }

  lemma {:induction false} FailureFree(ops: seq<SyncOp>, listed: Config, calls: seq<Call>, i: nat)
    requires Trail(ops, listed, calls) && i < |calls| && Count(calls[..i], Failed) == 0
    ensures Meets(calls[i], ops[i], EffectAll(listed, ops[..i]), StateAfter(listed, calls[..i]))
    ensures calls[i].ifMatch == Digest(EffectAll(listed, ops[..i]))
  {
    if i == |calls| - 1 {
      LastCallMeets(ops, listed, calls);
      RevisionIsBelief(ops, listed, calls[..i]);
      NoFailureIsSerial(ops, listed, calls[..i]);
    } else {
      var front := calls[..|calls| - 1];
      assert front[..i] == calls[..i];
      FailureFree(ops, listed, front, i);
    }
  }

  // As long as no operation failed, a call that the node's revision admits, whether it
  // gets there and its reply comes back or not, would take away the node's last user in
  // one case only: it is the very last one of a run that would empty the node. Creates
  // and patches come first.
  lemma NeverEmpties(des: seq<DesiredUser>, opts: SyncOptions, s: Session, i: nat)
    requires DistinctDesired(des) && Sound(des, opts, s) && i < |s.calls| && Count(s.calls[..i], Failed) == 0
    ensures var k, ops := s.calls[i], Ops(des, opts, s);
            Admits(k.before, k.ifMatch) ==>
              (IsLast(k.before, ops[i]) <==> WouldEmpty(des, Prefix(opts), s.listed) && i == |ops| - 1)
    ensures s.calls[i].fate == Delivered && !WouldEmpty(des, Prefix(opts), s.listed) ==>
              !Refuses(s.calls[i].reply, LastUser)
  {
    var ops := Ops(des, opts, s);
    SoundIsTrail(des, opts, s);
    FailureFree(ops, s.listed, s.calls, i);
    OnlyLastIsLonely(des, s.listing, Prefix(opts), s.listed, i);
  }

  lemma CalmAttempt(des: seq<DesiredUser>, opts: SyncOptions, s: Session)
    requires DistinctDesired(des) && Sound(des, opts, s) && Disturbances(s.calls) == 0 && AllDelivered(s.calls)
    ensures !Stops(LastVerdict(s.calls))
    ensures |s.calls| == |Ops(des, opts, s)| ==>
              if WouldEmpty(des, Prefix(opts), s.listed)
              then Count(s.calls, Applied) == |s.calls| - 1 && RefusedOnce(Errors(s.calls))
              else Count(s.calls, Applied) == |s.calls| && Count(s.calls, Failed) == 0
  {
    var ops, lonely := Ops(des, opts, s), WouldEmpty(des, Prefix(opts), s.listed);
    SoundIsTrail(des, opts, s);
    forall i | 0 <= i < |ops|
      ensures IsLast(EffectAll(s.listed, ops[..i]), ops[i]) <==> lonely && i == |ops| - 1
    {
      OnlyLastIsLonely(des, s.listing, Prefix(opts), s.listed, i);
    }
    CalmLoop(ops, s.listed, s.calls, lonely);
    CountsAddUp(ops, s.listed, s.calls);
    CalmVerdict(ops, s.listed, s.calls);
    if lonely {
      var u :| u in s.listed;
      OpNamesOfDiff(des, s.listing, Prefix(opts), s.listed, u);
    }
  }

  lemma CalmVerdict(ops: seq<SyncOp>, listed: Config, calls: seq<Call>)
    requires Trail(ops, listed, calls) && Disturbances(calls) == 0 && AllDelivered(calls)
    ensures !Stops(LastVerdict(calls))
  {
    if calls != [] {
      CalmCall(ops, listed, calls);
      var k := calls[|calls| - 1];
      if Refuses(k.reply, LastUser) {
        ClassesOf(k.reply.error, LastUser);
      }
    }
  }

  lemma {:induction false} NothingDisturbs(run: seq<Session>)
    requires forall s :: s in run ==> NoForeign(s.calls) && AllDelivered(s.calls)
    ensures RunDisturbances(run) == 0
  {
    if run != [] {
      var calls := run[|run| - 1].calls;
      assert run[|run| - 1] in run;
      NothingDisturbs(run[..|run| - 1]);
      DisturbancesAre(calls);
      NoForeignWrites(calls);
      assert LostReplies(calls) == {};
    }
  }

  lemma UndisturbedRun(des: seq<DesiredUser>, opts: SyncOptions, run: seq<Session>, res: Result, end: Ending)
    requires DistinctDesired(des) && Accounts(des, opts, run, res, end)
    requires end != Unlisted && RunDisturbances(run) < 1 <= Attempts(opts) && opts.mode != SHADOW
    requires forall s :: s in run ==> AllDelivered(s.calls)
    ensures |run| == 1 && (end == Aborted || end == Finished)
    ensures end == Finished ==>
              if WouldEmpty(des, Prefix(opts), run[0].listed)
              then res.applied == |res.ops| - 1 && RefusedOnce(res.errors)
              else res.applied == |res.ops| && res.failed == 0
  {
    ConflictBudget(des, opts, run, res, end);
    AccountsChain(des, opts, run, res, end);
    assert Link(des, opts, run, 0) && run[0] in run && run[..0] == [];
    CalmAttempt(des, opts, run[0]);
  }

  // A run nobody else writes into, with every call and listing delivered, lists once and,
  // unless the guard stops it, applies every operation; only on a node it would empty
  // does the last delete fail, with telemt's refusal.
  lemma CalmRun(des: seq<DesiredUser>, opts: SyncOptions, run: seq<Session>, res: Result, end: Ending)
    requires DistinctDesired(des) && Accounts(des, opts, run, res, end)
    requires end != Unlisted && Attempts(opts) >= 1 && opts.mode != SHADOW
    requires forall s :: s in run ==> NoForeign(s.calls) && AllDelivered(s.calls)
    ensures |run| == 1 && (end == Aborted || end == Finished)
    ensures end == Finished ==>
              if WouldEmpty(des, Prefix(opts), run[0].listed)
              then res.applied == |res.ops| - 1 && RefusedOnce(res.errors)
              else res.applied == |res.ops| && res.failed == 0
  {
    NothingDisturbs(run);
    UndisturbedRun(des, opts, run, res, end);
  }

  // ---- Runs nobody else writes into ----

  predicate Quiet(run: seq<Session>) {
    forall j :: 0 <= j < |run| ==> NoForeign(run[j].calls) && (j > 0 ==> run[j].foreign == 0)
  }

  lemma QuietAttempt(des: seq<DesiredUser>, opts: SyncOptions, s: Session)
    requires DistinctDesired(des) && Sound(des, opts, s) && NoForeign(s.calls)
    ensures Between(des, Prefix(opts), s.listed, End(s))
    ensures LastVerdict(s.calls) == Conflict ==> End(s) != s.listed
  {
    var ops := Ops(des, opts, s);
    var landed := Sent(ops, s.calls, Landed);
    SoundIsTrail(des, opts, s);
    QuietEnd(ops, s.listed, s.calls);
    SentIsDistinct(ops, s.calls, Landed);
    SelectionIsBetween(des, s.listing, Prefix(opts), s.listed, landed);
    if LastVerdict(s.calls) == Conflict {
      ConflictIsCharged(des, opts, s);
      LostReplyLanded(ops, s.calls);
      SelectionByName(des, s.listing, Prefix(opts), s.listed, landed, landed[0].username);
      DiffMember(des, s.listing, Prefix(opts), s.listed, landed[0]);
    }
  }

  // Every listing of a quiet run is the first one with some of the first operations applied.
  lemma {:induction false} QuietProgress(des: seq<DesiredUser>, opts: SyncOptions, run: seq<Session>, j: nat)
    requires DistinctDesired(des) && Chain(des, opts, run) && Quiet(run) && j < |run|
    ensures Between(des, Prefix(opts), run[0].listed, run[j].listed)
    decreases j
  {
    if j > 0 {
      QuietProgress(des, opts, run, j - 1);
      QuietStep(des, opts, run, j);
      BetweenTransitive(des, Prefix(opts), run[0].listed, run[j - 1].listed, run[j].listed);
    }
  }

  lemma QuietStep(des: seq<DesiredUser>, opts: SyncOptions, run: seq<Session>, j: nat)
    requires DistinctDesired(des) && Chain(des, opts, run) && Quiet(run) && 0 < j < |run|
    ensures Between(des, Prefix(opts), run[j - 1].listed, run[j].listed)
  {
    assert Link(des, opts, run, j - 1) && Link(des, opts, run, j);
    QuietAttempt(des, opts, run[j - 1]);
  }

  // A quiet run's retries have ever fewer operations left, lost replies included: each
  // takes up exactly the operations of the one before that have not landed.
  lemma RetriesShrink(des: seq<DesiredUser>, opts: SyncOptions, run: seq<Session>, j: nat)
    requires DistinctDesired(des) && Chain(des, opts, run) && Quiet(run) && j + 1 < |run|
    ensures |Ops(des, opts, run[j + 1])| < |Ops(des, opts, run[j])|
    ensures multiset(Ops(des, opts, run[j + 1])) ==
            multiset(Remaining(Ops(des, opts, run[j]), run[j].listed, run[j + 1].listed))
  {
    var s, t := run[j], run[j + 1];
    assert Link(des, opts, run, j) && Link(des, opts, run, j + 1);
    QuietAttempt(des, opts, s);
    ProgressShrinksDiff(des, Prefix(opts), s.listed, s.listing, t.listed, t.listing);
    ResumeAnywhere(des, Prefix(opts), s.listed, s.listing, t.listed, t.listing);
  }

  // A quiet run is aborted at its first attempt or never.
  lemma NeverAbortedAtRetry(des: seq<DesiredUser>, opts: SyncOptions, run: seq<Session>, res: Result, end: Ending)
    requires DistinctDesired(des) && Accounts(des, opts, run, res, end) && Quiet(run)
    ensures end == Aborted ==> |run| == 1
  {
    if |run| > 1 {
      AccountsChain(des, opts, run, res, end);
      assert Link(des, opts, run, 0);
      GuardStaysOpen(des, opts, run, |run| - 1);
    }
  }

  lemma GuardStaysOpen(des: seq<DesiredUser>, opts: SyncOptions, run: seq<Session>, j: nat)
    requires DistinctDesired(des) && Chain(des, opts, run) && Quiet(run) && j < |run|
    requires !Guarded(des, opts, run[0])
    ensures !Guarded(des, opts, run[j])
  {
    if !opts.force {
      assert Link(des, opts, run, 0) && Link(des, opts, run, j);
      QuietProgress(des, opts, run, j);
      GuardIsMonotone(des, opts.massDelete, run[0].listed, run[0].listing, run[j].listed, run[j].listing);
    }
  }

  // ---- What failures leave behind ----

  lemma DiffIsEffective(des: seq<DesiredUser>, listing: seq<RemoteUser>, prefix: string, c: Config)
    requires DistinctDesired(des) && Lists(listing, c)
    ensures Effective(DiffOf(des, listing, prefix), c)
  {
    var ops := DiffOf(des, listing, prefix);
    forall i | 0 <= i < |ops|
      ensures Touch(ops[i], At(c, ops[i].username)) != At(c, ops[i].username)
    {
      DiffMember(des, listing, prefix, c, ops[i]);
      assert Goal(des, prefix, ops[i].username, At(c, ops[i].username)) == Touch(ops[i], At(c, ops[i].username));
    }
  }

  // When nobody else wrote during the last attempt of a finished run, the next diff
  // holds exactly the operations whose effect did not land, lost replies included: no
  // more than the run reported as failed.
  lemma LeftBehind(des: seq<DesiredUser>, opts: SyncOptions, run: seq<Session>, res: Result, relisting: seq<RemoteUser>)
    requires DistinctDesired(des) && Accounts(des, opts, run, res, Finished)
    requires NoForeign(run[|run| - 1].calls) && Lists(relisting, End(run[|run| - 1]))
    ensures var s := run[|run| - 1];
            multiset(DiffOf(des, relisting, Prefix(opts))) == multiset(Remaining(res.ops, s.listed, End(s)))
    ensures |DiffOf(des, relisting, Prefix(opts))| <= res.failed
  {
    var s := run[|run| - 1];
    var left := Remaining(res.ops, s.listed, End(s));
    AccountsChain(des, opts, run, res, Finished);
    assert Link(des, opts, run, |run| - 1);
    QuietAttempt(des, opts, s);
    ResumeAnywhere(des, Prefix(opts), s.listed, s.listing, End(s), relisting);
    assert |multiset(DiffOf(des, relisting, Prefix(opts)))| == |multiset(left)|;
    NothingSkipped(des, opts, run, res, Finished);
    Accounting(des, opts, run, res, Finished);
    LeftAndLanded(des, opts, s);
  }

  // Without foreign writes every operation of an attempt has landed or is left.
  lemma LeftAndLanded(des: seq<DesiredUser>, opts: SyncOptions, s: Session)
    requires DistinctDesired(des) && Sound(des, opts, s) && NoForeign(s.calls)
    ensures var ops := Ops(des, opts, s);
            |Remaining(ops, s.listed, End(s))| + Landings(s.calls) == |ops|
    ensures Landings(s.calls) >= Count(s.calls, Applied)
  {
    var ops := Ops(des, opts, s);
    var left, landed := Remaining(ops, s.listed, End(s)), Sent(ops, s.calls, Landed);
    SoundIsTrail(des, opts, s);
    DiffIsEffective(des, s.listing, Prefix(opts), s.listed);
    AppliedHasLanded(ops, s.listed, s.calls);
    LandingsAreSent(ops, s.calls);
    SentIsDistinct(ops, s.calls, Landed);
    RemainingDistinct(ops, s.listed, End(s));
    NamesAtMost(left);
    NamesAtMost(landed);
    NamesAtMost(ops);
    LeftNames(des, opts, s);
  }

  lemma LeftNames(des: seq<DesiredUser>, opts: SyncOptions, s: Session)
    requires DistinctDesired(des) && Sound(des, opts, s) && NoForeign(s.calls)
    ensures var ops := Ops(des, opts, s);
            var left, landed := OpNames(Remaining(ops, s.listed, End(s))), OpNames(Sent(ops, s.calls, Landed));
            left !! landed && left + landed == OpNames(ops)
  {
    var ops := Ops(des, opts, s);
    var landed := Sent(ops, s.calls, Landed);
    SoundIsTrail(des, opts, s);
    QuietEnd(ops, s.listed, s.calls);
    SentIsDistinct(ops, s.calls, Landed);
    forall n
      ensures n in OpNames(Remaining(ops, s.listed, End(s))) <==> n in OpNames(ops) && n !in OpNames(landed)
    {
      LeftName(des, s.listing, Prefix(opts), s.listed, landed, n);
    }
    forall n | n in OpNames(landed)
      ensures n in OpNames(ops)
    {
      var i :| 0 <= i < |landed| && landed[i].username == n;
      assert landed[i] in ops;
    }
  }

  lemma LeftName(des: seq<DesiredUser>, listing: seq<RemoteUser>, prefix: string, c: Config, landed: seq<SyncOp>,
                 n: string)
    requires DistinctDesired(des) && Lists(listing, c) && Selection(landed, DiffOf(des, listing, prefix))
    ensures var ops := DiffOf(des, listing, prefix);
            n in OpNames(Remaining(ops, c, EffectAll(c, landed))) <==> n in OpNames(ops) && n !in OpNames(landed)
  {
    var ops, later := DiffOf(des, listing, prefix), EffectAll(c, landed);
    var left := Remaining(ops, c, later);
    if n in OpNames(left) {
      var i :| 0 <= i < |left| && left[i].username == n;
      RemainingMember(ops, c, later, left[i]);
      NotLanded(des, listing, prefix, c, landed, left[i]);
    }
    if n in OpNames(ops) && n !in OpNames(landed) {
      var i :| 0 <= i < |ops| && ops[i].username == n;
      SelectionByName(des, listing, prefix, c, landed, n);
      RemainingMember(ops, c, later, ops[i]);
      assert ops[i] in left;
    }
  }

  // An operation whose user has not changed is not among those applied.
  lemma NotLanded(des: seq<DesiredUser>, listing: seq<RemoteUser>, prefix: string, c: Config, landed: seq<SyncOp>,
                  op: SyncOp)
    requires DistinctDesired(des) && Lists(listing, c) && Selection(landed, DiffOf(des, listing, prefix))
    requires op in DiffOf(des, listing, prefix) && At(EffectAll(c, landed), op.username) == At(c, op.username)
    ensures op.username !in OpNames(landed)
  {
    SelectionByName(des, listing, prefix, c, landed, op.username);
    DiffMember(des, listing, prefix, c, op);
  }

  // ---- The bound on deletes ----

  // Fewer deletes than the minimum, or at most the threshold's share of the managed users.
  predicate WithinGuard(deletes: nat, managed: nat, opts: MassDeleteOptions) {
    deletes < MinDeletes(opts) || Fraction(deletes, managed) <= Threshold(opts)
  }

  function DeleteCalls(calls: seq<Call>): nat {
    if calls == [] then 0
    else DeleteCalls(calls[..|calls| - 1]) + if calls[|calls| - 1].request.DeleteUser? then 1 else 0
  }

  lemma {:induction false} DeleteCallsAreDeletes(ops: seq<SyncOp>, listed: Config, calls: seq<Call>)
    requires Follows(ops, listed, calls)
    ensures DeleteCalls(calls) == CountOps(ops[..|calls|], OpDelete)
  {
    if calls == [] {
      assert ops[..0] == [];
    } else {
      DeleteCallsAreDeletes(ops, listed, calls[..|calls| - 1]);
      assert ops[..|calls|][..|calls| - 1] == ops[..|calls| - 1];
    }
  }

  // An attempt that sends anything was let through by the guard.
  lemma SenderIsOpen(des: seq<DesiredUser>, opts: SyncOptions, run: seq<Session>, res: Result, end: Ending, j: nat)
    requires Accounts(des, opts, run, res, end) && j < |run| && run[j].calls != []
    ensures Sound(des, opts, run[j]) && !Guarded(des, opts, run[j])
  {
    AccountsChain(des, opts, run, res, end);
    assert Link(des, opts, run, j);
  }

  // Without force, what any attempt of a call asks to delete is within the guard against
  // the managed users it listed.
  lemma AttemptDeletesWithinGuard(des: seq<DesiredUser>, opts: SyncOptions, run: seq<Session>, res: Result,
                                  end: Ending, j: nat)
    requires DistinctDesired(des) && Accounts(des, opts, run, res, end) && j < |run| && !opts.force
    ensures run[j].calls == []
            || WithinGuard(DeleteCalls(run[j].calls), |Managed(Prefix(opts), run[j].listed)|, opts.massDelete)
  {
    if run[j].calls != [] {
      SenderIsOpen(des, opts, run, res, end, j);
      OpenGuardBoundsDeletes(des, opts, run[j]);
    }
  }

  lemma OpenGuardBoundsDeletes(des: seq<DesiredUser>, opts: SyncOptions, s: Session)
    requires DistinctDesired(des) && Sound(des, opts, s) && !Guarded(des, opts, s) && !opts.force
    ensures WithinGuard(DeleteCalls(s.calls), |Managed(Prefix(opts), s.listed)|, opts.massDelete)
  {
    var ops, n := Ops(des, opts, s), |s.calls|;
    DeleteCallsAreDeletes(ops, s.listed, s.calls);
    CountDeletesSplit(ops[..n], ops[n..]);
    assert ops == ops[..n] + ops[n..];
    SafetyCounts(des, s.listing, Prefix(opts), s.listed);
    var d, t := CountOps(ops, OpDelete), |Managed(Prefix(opts), s.listed)|;
    SubsetSize(Doomed(des, Prefix(opts), s.listed), Managed(Prefix(opts), s.listed));
    FractionShrinks(d, t, DeleteCalls(s.calls), t);
  }

  // The users missing after progress are doomed ones.
  lemma LostAreDoomed(des: seq<DesiredUser>, prefix: string, first: Config, final: Config)
    requires Between(des, prefix, first, final)
    ensures first.Keys - final.Keys <= Doomed(des, prefix, first)
  {
    forall n | n in first.Keys - final.Keys
      ensures n in Doomed(des, prefix, first)
    {
      assert At(final, n) == At(first, n) || At(final, n) == Goal(des, prefix, n, At(first, n));
      assert n in DesiredNames(des) <==> DesiredFor(des, n).Some?;
    }
  }

  lemma FewerWithinGuard(des: seq<DesiredUser>, opts: SyncOptions, s: Session, lost: nat)
    requires DistinctDesired(des) && ValidSession(s) && !Guarded(des, opts, s) && !opts.force
    requires lost <= |Doomed(des, Prefix(opts), s.listed)|
    ensures WithinGuard(lost, |Managed(Prefix(opts), s.listed)|, opts.massDelete)
  {
    var doomed, managed := Doomed(des, Prefix(opts), s.listed), Managed(Prefix(opts), s.listed);
    SafetyCounts(des, s.listing, Prefix(opts), s.listed);
    SubsetSize(doomed, managed);
    FractionShrinks(|doomed|, |managed|, lost, |managed|);
  }

  lemma QuietSpan(des: seq<DesiredUser>, opts: SyncOptions, run: seq<Session>)
    requires DistinctDesired(des) && Chain(des, opts, run) && Quiet(run) && run != []
    ensures Between(des, Prefix(opts), run[0].listed, End(run[|run| - 1]))
  {
    var j := |run| - 1;
    QuietProgress(des, opts, run, j);
    assert Link(des, opts, run, j);
    QuietAttempt(des, opts, run[j]);
    BetweenTransitive(des, Prefix(opts), run[0].listed, run[j].listed, End(run[j]));
  }

  // Without force, a quiet run as a whole, retries and lost replies included, removes
  // only users within the guard against the managed users of its first listing; a run
  // the guard stops at once removes none.
  lemma RunDeletesWithinGuard(des: seq<DesiredUser>, opts: SyncOptions, run: seq<Session>, res: Result, end: Ending)
    requires DistinctDesired(des) && Accounts(des, opts, run, res, end) && Quiet(run) && run != [] && !opts.force
    ensures var first, final := run[0].listed, End(run[|run| - 1]);
            if Guarded(des, opts, run[0]) then final == first
            else WithinGuard(|first.Keys - final.Keys|, |Managed(Prefix(opts), first)|, opts.massDelete)
  {
    AccountsChain(des, opts, run, res, end);
    assert Link(des, opts, run, 0);
    if !Guarded(des, opts, run[0]) {
      ChainDeletesWithinGuard(des, opts, run);
    }
  }

  lemma ChainDeletesWithinGuard(des: seq<DesiredUser>, opts: SyncOptions, run: seq<Session>)
    requires DistinctDesired(des) && Chain(des, opts, run) && Quiet(run) && run != [] && !opts.force
    requires !Guarded(des, opts, run[0])
    ensures var first, final := run[0].listed, End(run[|run| - 1]);
            WithinGuard(|first.Keys - final.Keys|, |Managed(Prefix(opts), first)|, opts.massDelete)
  {
    var first, final := run[0].listed, End(run[|run| - 1]);
    assert Link(des, opts, run, 0);
    QuietSpan(des, opts, run);
    LostAreDoomed(des, Prefix(opts), first, final);
    SubsetSize(first.Keys - final.Keys, Doomed(des, Prefix(opts), first));
    FewerWithinGuard(des, opts, run[0], |first.Keys - final.Keys|);
  }

  // ---- Frame ----

  lemma CallFrame(des: seq<DesiredUser>, opts: SyncOptions, s: Session, i: nat, n: string)
    requires DistinctDesired(des) && Sound(des, opts, s) && i < |s.calls|
    ensures var k := s.calls[i];
            && (n !in DesiredNames(des) && !HasPrefix(n, Prefix(opts)) ==> At(k.after, n) == At(k.before, n))
            && (n in k.before && n in k.after ==> k.after[n].secret == k.before[n].secret)
  {
    var op := Ops(des, opts, s)[i];
    CallAt(Ops(des, opts, s), s.listed, s.calls, i);
    ServedEffect(s.calls[i], op);
    DiffMember(des, s.listing, Prefix(opts), s.listed, op);
    assert op.username in DesiredNames(des) <==> DesiredFor(des, op.username).Some?;
  }

  // No call of a run changes a user that is neither desired nor managed, and none
  // changes the secret of a user that is there before and after it.
  lemma Frame(des: seq<DesiredUser>, opts: SyncOptions, run: seq<Session>, res: Result, end: Ending,
              j: nat, i: nat, n: string)
    requires DistinctDesired(des) && Accounts(des, opts, run, res, end) && j < |run| && i < |run[j].calls|
    ensures var k := run[j].calls[i];
            && (n !in DesiredNames(des) && !HasPrefix(n, Prefix(opts)) ==> At(k.after, n) == At(k.before, n))
            && (n in k.before && n in k.after ==> k.after[n].secret == k.before[n].secret)
  {
    AccountsChain(des, opts, run, res, end);
    assert Link(des, opts, run, j);
    CallFrame(des, opts, run[j], i, n);
  }
}
