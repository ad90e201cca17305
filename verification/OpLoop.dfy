// The op loop against a node others write to, for any list of operations with
// distinct users that fit the table they were computed from.
module OpLoop {
  import opened Users
  import opened Configs
  import opened Wire
  import opened Telemt
  import opened Sync

  predicate Fitting(ops: seq<SyncOp>, listed: Config) {
    DistinctOps(ops) && forall i :: 0 <= i < |ops| ==> Fits(ops[i], listed)
  }

  // A run of the loop over ops, computed from the table listed.
  predicate Trail(ops: seq<SyncOp>, listed: Config, calls: seq<Call>) {
    Fitting(ops, listed) && ValidCalls(listed, calls) && Follows(ops, listed, calls)
  }

  datatype Kind = Acknowledged | Landed

  // Acknowledged: the caller saw success. Landed: it changed the table, seen or not.
  predicate Is(k: Call, kind: Kind) {
    match kind
    case Acknowledged => k.reply.Done?
    case Landed => k.after != k.before
  }

  function Sent(ops: seq<SyncOp>, calls: seq<Call>, kind: Kind): seq<SyncOp>
    requires |calls| <= |ops|
  {
    if calls == [] then []
    else
      var n := |calls| - 1;
      Sent(ops, calls[..n], kind) + if Is(calls[n], kind) then [ops[n]] else []
  }

  lemma {:induction false} SentIsDistinct(ops: seq<SyncOp>, calls: seq<Call>, kind: Kind)
    requires DistinctOps(ops) && |calls| <= |ops|
    ensures DistinctOps(Sent(ops, calls, kind))
    ensures forall op :: op in Sent(ops, calls, kind) ==> op in ops
    ensures forall op, i :: op in Sent(ops, calls, kind) && |calls| <= i < |ops| ==> op.username != ops[i].username
  {
    if calls != [] {
      SentIsDistinct(ops, calls[..|calls| - 1], kind);
    }
  }

  // The listed table with the operations sent so far applied.
  function TableWith(ops: seq<SyncOp>, listed: Config, calls: seq<Call>, kind: Kind): Config
    requires |calls| <= |ops|
  {
    EffectAll(listed, Sent(ops, calls, kind))
  }

  // The table the caller believes in.
  function Believed(ops: seq<SyncOp>, listed: Config, calls: seq<Call>): Config
    requires |calls| <= |ops|
  {
    TableWith(ops, listed, calls, Acknowledged)
  }

  lemma EffectSnoc(c: Config, ops: seq<SyncOp>, op: SyncOp)
    ensures EffectAll(c, ops + [op]) == Effect(EffectAll(c, ops), op)
  {
  }

  lemma TableStep(ops: seq<SyncOp>, listed: Config, calls: seq<Call>, kind: Kind)
    requires calls != [] && |calls| <= |ops|
    ensures var n := |calls| - 1;
            var before := TableWith(ops, listed, calls[..n], kind);
            TableWith(ops, listed, calls, kind) == if Is(calls[n], kind) then Effect(before, ops[n]) else before
  {
    var n := |calls| - 1;
    var sent := Sent(ops, calls[..n], kind);
    EffectSnoc(listed, sent, ops[n]);
    assert sent + [] == sent;
  }

  // What a served call of an operation can have done to the table.
  lemma ServedEffect(k: Call, op: SyncOp)
    requires Served(k) && k.request == RequestOf(op)
    ensures k.reply.Done? ==>
              Admits(k.before, k.ifMatch) && k.after == Effect(k.before, op) && k.reply.revision == Digest(k.after)
    ensures k.after == k.before || (k.after == Effect(k.before, op) && Admits(k.before, k.ifMatch))
    ensures !k.reply.Done? && !k.fate.ReplyLost? ==> k.after == k.before
  {
    HandleRefines(k.before, op, k.ifMatch);
  }

  // How it was answered, given that it finds its user as expected.
  lemma ServedReply(k: Call, op: SyncOp, belief: Config)
    requires Served(k) && k.request == RequestOf(op) && k.ifMatch == Digest(belief) && Fits(op, belief)
    ensures Judge(k.reply) != Skipped
    ensures Judge(k.reply) == Conflict ==> k.before != belief
    ensures k.fate == Delivered && k.before == belief ==>
              if IsLast(belief, op) then Refuses(k.reply, LastUser) else k.reply.Done?
    ensures k.fate == Delivered && Refuses(k.reply, LastUser) ==> k.before == belief
  {
    HandleRefines(k.before, op, k.ifMatch);
    if k.fate == Delivered && k.reply.Failure? {
      var r := Handle(k.before, k.request, k.ifMatch).refusal;
      ClassesOf(k.reply.error, r);
      if Tells(k.reply.error, LastUser) {
        TellsOneThing(k.reply.error, r, LastUser);
      }
    }
  }

  lemma {:induction false} RevisionIsBelief(ops: seq<SyncOp>, listed: Config, calls: seq<Call>)
    requires Trail(ops, listed, calls)
    ensures RevAfter(Digest(listed), calls) == Digest(Believed(ops, listed, calls))
  {
    if calls != [] {
      var n := |calls| - 1;
      RevisionIsBelief(ops, listed, calls[..n]);
      ServedEffect(calls[n], ops[n]);
      TableStep(ops, listed, calls, Acknowledged);
    }
  }

  lemma StillFitting(ops: seq<SyncOp>, listed: Config, calls: seq<Call>)
    requires Fitting(ops, listed) && |calls| < |ops|
    ensures Fits(ops[|calls|], Believed(ops, listed, calls))
    ensures var n := ops[|calls|].username; At(Believed(ops, listed, calls), n) == At(listed, n)
  {
    var op := ops[|calls|];
    SentIsDistinct(ops, calls, Acknowledged);
    UntouchedByOthers(listed, Sent(ops, calls, Acknowledged), op.username);
    assert At(Believed(ops, listed, calls), op.username) == At(listed, op.username);
  }

  // The last call changes the believed table as its operation says, or it changes nothing.
  predicate Meets(k: Call, op: SyncOp, belief: Config, previous: Config) {
    && (k.foreign == 0 ==> k.before == previous)
    && (k.after == k.before || (k.before == belief && k.after == Effect(belief, op)))
    && (k.reply.Done? ==> k.before == belief && k.after == Effect(belief, op))
    && (!k.reply.Done? && !k.fate.ReplyLost? ==> k.after == k.before)
    && Judge(k.reply) != Skipped && (Judge(k.reply) == Conflict ==> k.before != belief)
    && (k.fate == Delivered && k.before == belief ==>
          if IsLast(belief, op) then Refuses(k.reply, LastUser) else k.reply.Done?)
    && (k.fate == Delivered && Refuses(k.reply, LastUser) ==> k.before == belief)
  }

  lemma LastCallMeets(ops: seq<SyncOp>, listed: Config, calls: seq<Call>)
    requires Trail(ops, listed, calls) && calls != []
    ensures var n := |calls| - 1;
            && Trail(ops, listed, calls[..n]) && !Stops(LastVerdict(calls[..n]))
            && Meets(calls[n], ops[n], Believed(ops, listed, calls[..n]), StateAfter(listed, calls[..n]))
  {
    var n := |calls| - 1;
    RevisionIsBelief(ops, listed, calls[..n]);
    ServedEffect(calls[n], ops[n]);
    StillFitting(ops, listed, calls[..n]);
    ServedReply(calls[n], ops[n], Believed(ops, listed, calls[..n]));
  }

  // No call is ever answered "already done": 404 and user_exists cannot happen.
  lemma {:induction false} NeverSkipped(ops: seq<SyncOp>, listed: Config, calls: seq<Call>)
    requires Trail(ops, listed, calls)
    ensures Count(calls, Skipped) == 0
  {
    if calls != [] {
      LastCallMeets(ops, listed, calls);
      NeverSkipped(ops, listed, calls[..|calls| - 1]);
    }
  }

  // ---- Serialisability ----

  // The call k is the i-th step from the listed table.
  predicate IsStep(ops: seq<SyncOp>, listed: Config, k: Call, i: nat)
    requires i < |ops|
  {
    k.before == EffectAll(listed, ops[..i]) && k.after == EffectAll(listed, ops[..i + 1])
  }

  predicate Serial(ops: seq<SyncOp>, listed: Config, calls: seq<Call>) {
    |calls| <= |ops| && forall i :: 0 <= i < |calls| ==> IsStep(ops, listed, calls[i], i)
  }

  lemma PrefixStep(ops: seq<SyncOp>, listed: Config, n: nat)
    requires n < |ops|
    ensures EffectAll(listed, ops[..n + 1]) == Effect(EffectAll(listed, ops[..n]), ops[n])
  {
    assert ops[..n + 1] == ops[..n] + [ops[n]];
    EffectSnoc(listed, ops[..n], ops[n]);
  }

  lemma SerialStep(ops: seq<SyncOp>, listed: Config, calls: seq<Call>)
    requires calls != [] && Serial(ops, listed, calls[..|calls| - 1]) && |calls| <= |ops|
    requires IsStep(ops, listed, calls[|calls| - 1], |calls| - 1)
    ensures Serial(ops, listed, calls)
  {
    var front := calls[..|calls| - 1];
    forall i | 0 <= i < |front|
      ensures IsStep(ops, listed, calls[i], i)
    {
      assert IsStep(ops, listed, front[i], i);
    }
  }

  // A last call that neither failed nor stopped the loop took the believed table further.
  lemma LastCallSucceeds(ops: seq<SyncOp>, listed: Config, calls: seq<Call>)
    requires Trail(ops, listed, calls) && calls != []
    requires Judge(calls[|calls| - 1].reply) != Failed && !Stops(LastVerdict(calls))
    ensures var n := |calls| - 1;
            var belief := Believed(ops, listed, calls[..n]);
            && Trail(ops, listed, calls[..n]) && !Stops(LastVerdict(calls[..n]))
            && calls[n].before == belief && calls[n].after == Effect(belief, ops[n])
            && Believed(ops, listed, calls) == Effect(belief, ops[n])
  {
    LastCallMeets(ops, listed, calls);
    TableStep(ops, listed, calls, Acknowledged);
  }

  lemma {:induction false} StepOn(ops: seq<SyncOp>, listed: Config, calls: seq<Call>)
    requires Trail(ops, listed, calls) && calls != []
    requires Judge(calls[|calls| - 1].reply) != Failed && !Stops(LastVerdict(calls))
    requires Believed(ops, listed, calls[..|calls| - 1]) == EffectAll(listed, ops[..|calls| - 1])
    ensures Believed(ops, listed, calls) == EffectAll(listed, ops[..|calls|])
    ensures IsStep(ops, listed, calls[|calls| - 1], |calls| - 1)
  {
    LastCallSucceeds(ops, listed, calls);
    PrefixStep(ops, listed, |calls| - 1);
  }

  // While nothing fails, the belief is the listing with all operations so far, and each
  // call found the node there and took it one further.
  lemma {:induction false} NoFailureBelief(ops: seq<SyncOp>, listed: Config, calls: seq<Call>)
    requires Trail(ops, listed, calls) && Count(calls, Failed) == 0 && !Stops(LastVerdict(calls))
    ensures Believed(ops, listed, calls) == EffectAll(listed, ops[..|calls|])
    ensures calls != [] ==> IsStep(ops, listed, calls[|calls| - 1], |calls| - 1)
  {
    if calls == [] {
      assert ops[..0] == [];
    } else {
      LastCallSucceeds(ops, listed, calls);
      NoFailureBelief(ops, listed, calls[..|calls| - 1]);
      StepOn(ops, listed, calls);
    }
  }

  // While nothing fails, the node is, just before and just after each call, exactly the
  // listed table with the operations up to there applied one by one.
  lemma {:induction false} NoFailureIsSerial(ops: seq<SyncOp>, listed: Config, calls: seq<Call>)
    requires Trail(ops, listed, calls) && Count(calls, Failed) == 0 && !Stops(LastVerdict(calls))
    ensures Believed(ops, listed, calls) == EffectAll(listed, ops[..|calls|])
    ensures Serial(ops, listed, calls)
  {
    NoFailureBelief(ops, listed, calls);
    if calls != [] {
      LastCallSucceeds(ops, listed, calls);
      NoFailureIsSerial(ops, listed, calls[..|calls| - 1]);
      SerialStep(ops, listed, calls);
    }
  }

  // ---- Disturbances ----

  function Disturbance(k: Call): nat {
    k.foreign + if k.fate.ReplyLost? && k.after != k.before then 1 else 0
  }

  // Foreign writes, and applied calls whose reply was lost, between listing and last call.
  function Disturbances(calls: seq<Call>): nat {
    if calls == [] then 0 else Disturbances(calls[..|calls| - 1]) + Disturbance(calls[|calls| - 1])
  }

  // Without a disturbance the belief is the truth and no call conflicts.
  lemma {:induction false} UndisturbedBelief(ops: seq<SyncOp>, listed: Config, calls: seq<Call>)
    requires Trail(ops, listed, calls) && Disturbances(calls) == 0
    ensures StateAfter(listed, calls) == Believed(ops, listed, calls) && LastVerdict(calls) != Conflict
    ensures calls != [] ==> calls[|calls| - 1].before == Believed(ops, listed, calls[..|calls| - 1])
  {
    if calls != [] {
      LastCallMeets(ops, listed, calls);
      UndisturbedBelief(ops, listed, calls[..|calls| - 1]);
      TableStep(ops, listed, calls, Acknowledged);
    }
  }

  predicate NoForeign(calls: seq<Call>) {
    forall i :: 0 <= i < |calls| ==> calls[i].foreign == 0
  }

  function ForeignWrites(calls: seq<Call>): nat {
    if calls == [] then 0 else ForeignWrites(calls[..|calls| - 1]) + calls[|calls| - 1].foreign
  }

  // The calls that changed the table and whose reply was lost.
  function LostReplies(calls: seq<Call>): set<nat> {
    set i: nat | i < |calls| && calls[i].fate.ReplyLost? && calls[i].after != calls[i].before
  }

  lemma LostSnoc(calls: seq<Call>)
    requires calls != []
    ensures var front, n := calls[..|calls| - 1], |calls| - 1;
            var lost := calls[n].fate.ReplyLost? && calls[n].after != calls[n].before;
            |LostReplies(calls)| == |LostReplies(front)| + if lost then 1 else 0
  {
    var front, n := calls[..|calls| - 1], |calls| - 1;
    var lost := calls[n].fate.ReplyLost? && calls[n].after != calls[n].before;
    forall i: nat
      ensures i in LostReplies(calls) <==> i in LostReplies(front) || (i == n && lost)
    {
      assert i < n ==> front[i] == calls[i];
    }
    assert LostReplies(calls) == LostReplies(front) + if lost then {n} else {};
  }

  // Nothing else counts as a disturbance.
  lemma {:induction false} DisturbancesAre(calls: seq<Call>)
    ensures Disturbances(calls) == ForeignWrites(calls) + |LostReplies(calls)|
  {
    if calls != [] {
      DisturbancesAre(calls[..|calls| - 1]);
      LostSnoc(calls);
    }
  }

  lemma {:induction false} NoForeignWrites(calls: seq<Call>)
    ensures NoForeign(calls) <==> ForeignWrites(calls) == 0
  {
    if calls != [] {
      NoForeignWrites(calls[..|calls| - 1]);
      assert NoForeign(calls) <==> NoForeign(calls[..|calls| - 1]) && calls[|calls| - 1].foreign == 0;
    }
  }

  // When nobody else writes, the node ends with exactly the landed operations applied.
  lemma {:induction false} QuietEnd(ops: seq<SyncOp>, listed: Config, calls: seq<Call>)
    requires Trail(ops, listed, calls) && NoForeign(calls)
    ensures StateAfter(listed, calls) == TableWith(ops, listed, calls, Landed)
  {
    if calls != [] {
      var n := |calls| - 1;
      LastCallMeets(ops, listed, calls);
      QuietEnd(ops, listed, calls[..n]);
      ServedEffect(calls[n], ops[n]);
      TableStep(ops, listed, calls, Landed);
    }
  }

  // Every operation would change its user.
  predicate Effective(ops: seq<SyncOp>, listed: Config) {
    forall i :: 0 <= i < |ops| ==> Touch(ops[i], At(listed, ops[i].username)) != At(listed, ops[i].username)
  }

  // How many calls changed the table.
  function Landings(calls: seq<Call>): nat {
    if calls == [] then 0
    else Landings(calls[..|calls| - 1]) + if Is(calls[|calls| - 1], Landed) then 1 else 0
  }

  lemma {:induction false} LandingsAreSent(ops: seq<SyncOp>, calls: seq<Call>)
    requires |calls| <= |ops|
    ensures |Sent(ops, calls, Landed)| == Landings(calls)
  {
    if calls != [] {
      LandingsAreSent(ops, calls[..|calls| - 1]);
    }
  }

  // What the caller saw applied has landed.
  lemma {:induction false} AppliedHasLanded(ops: seq<SyncOp>, listed: Config, calls: seq<Call>)
    requires Trail(ops, listed, calls) && Effective(ops, listed)
    ensures Landings(calls) >= Count(calls, Applied)
  {
    if calls != [] {
      var n := |calls| - 1;
      var belief := Believed(ops, listed, calls[..n]);
      LastCallMeets(ops, listed, calls);
      AppliedHasLanded(ops, listed, calls[..n]);
      StillFitting(ops, listed, calls[..n]);
      assert At(Effect(belief, ops[n]), ops[n].username) == Touch(ops[n], At(belief, ops[n].username));
    }
  }

  lemma {:induction false} LostReplyLanded(ops: seq<SyncOp>, calls: seq<Call>)
    requires |calls| <= |ops| && NoForeign(calls) && Disturbances(calls) > 0
    ensures Sent(ops, calls, Landed) != []
  {
    if Disturbances(calls[..|calls| - 1]) > 0 {
      LostReplyLanded(ops, calls[..|calls| - 1]);
    }
  }

  // ---- Nothing goes wrong ----

  predicate AllDelivered(calls: seq<Call>) {
    forall i :: 0 <= i < |calls| ==> calls[i].fate == Delivered
  }

  lemma CalmCall(ops: seq<SyncOp>, listed: Config, calls: seq<Call>)
    requires Trail(ops, listed, calls) && Disturbances(calls) == 0 && AllDelivered(calls) && calls != []
    ensures var n := |calls| - 1;
            var belief := Believed(ops, listed, calls[..n]);
            if IsLast(belief, ops[n]) then Refuses(calls[n].reply, LastUser)
            else calls[n].reply.Done? && Believed(ops, listed, calls) == Effect(belief, ops[n])
  {
    LastCallMeets(ops, listed, calls);
    UndisturbedBelief(ops, listed, calls);
    TableStep(ops, listed, calls, Acknowledged);
  }

  // The only error is the refusal to delete the last user.
  predicate RefusedOnce(errors: seq<CallError>) {
    |errors| == 1 && Tells(errors[0], LastUser)
  }

  lemma {:induction false} CalmStep(ops: seq<SyncOp>, listed: Config, calls: seq<Call>)
    requires Trail(ops, listed, calls) && Disturbances(calls) == 0 && AllDelivered(calls) && calls != []
    requires var n := |calls| - 1;
             && Count(calls[..n], Applied) == n && Errors(calls[..n]) == []
             && Believed(ops, listed, calls[..n]) == EffectAll(listed, ops[..n])
    ensures var n := |calls| - 1;
            if IsLast(EffectAll(listed, ops[..n]), ops[n])
            then Count(calls, Applied) == n && RefusedOnce(Errors(calls))
            else Count(calls, Applied) == |calls| && Errors(calls) == []
                 && Believed(ops, listed, calls) == EffectAll(listed, ops[..|calls|])
  {
    var n := |calls| - 1;
    CalmCall(ops, listed, calls);
    if Refuses(calls[n].reply, LastUser) {
      ClassesOf(calls[n].reply.error, LastUser);
    }
    PrefixStep(ops, listed, n);
  }

  lemma {:induction false} CalmSoFar(ops: seq<SyncOp>, listed: Config, calls: seq<Call>)
    requires Trail(ops, listed, calls) && Disturbances(calls) == 0 && AllDelivered(calls)
    requires forall i :: 0 <= i < |calls| ==> !IsLast(EffectAll(listed, ops[..i]), ops[i])
    ensures Count(calls, Applied) == |calls| && Errors(calls) == []
    ensures Believed(ops, listed, calls) == EffectAll(listed, ops[..|calls|])
  {
    if calls == [] {
      assert ops[..0] == [];
    } else {
      LastCallMeets(ops, listed, calls);
      CalmSoFar(ops, listed, calls[..|calls| - 1]);
      CalmStep(ops, listed, calls);
    }
  }

  lemma {:induction false} CalmLast(ops: seq<SyncOp>, listed: Config, calls: seq<Call>)
    requires Trail(ops, listed, calls) && Disturbances(calls) == 0 && AllDelivered(calls) && calls != []
    requires forall i :: 0 <= i < |calls| - 1 ==> !IsLast(EffectAll(listed, ops[..i]), ops[i])
    requires IsLast(EffectAll(listed, ops[..|calls| - 1]), ops[|calls| - 1])
    ensures Count(calls, Applied) == |calls| - 1 && RefusedOnce(Errors(calls))
  {
    LastCallMeets(ops, listed, calls);
    CalmSoFar(ops, listed, calls[..|calls| - 1]);
    CalmStep(ops, listed, calls);
  }

  // An undisturbed loop with every call delivered applies every operation, but for a
  // delete of the last user (lonely) at the very end.
  lemma {:induction false} CalmLoop(ops: seq<SyncOp>, listed: Config, calls: seq<Call>, lonely: bool)
    requires Trail(ops, listed, calls) && Disturbances(calls) == 0 && AllDelivered(calls)
    requires forall i :: 0 <= i < |ops| ==> (IsLast(EffectAll(listed, ops[..i]), ops[i]) <==> lonely && i == |ops| - 1)
    ensures if lonely && calls != [] && |calls| == |ops|
            then Count(calls, Applied) == |ops| - 1 && RefusedOnce(Errors(calls))
            else Count(calls, Applied) == |calls| && Errors(calls) == []
                 && Believed(ops, listed, calls) == EffectAll(listed, ops[..|calls|])
  {
    if lonely && calls != [] && |calls| == |ops| {
      CalmLast(ops, listed, calls);
    } else {
      CalmSoFar(ops, listed, calls);
    }
  }

  // ---- Each call ----

  lemma {:induction false} CallAt(ops: seq<SyncOp>, listed: Config, calls: seq<Call>, i: nat)
    requires ValidCalls(listed, calls) && Follows(ops, listed, calls) && i < |calls|
    ensures Served(calls[i]) && calls[i].request == RequestOf(ops[i])
  {
    if i < |calls| - 1 {
      CallAt(ops, listed, calls[..|calls| - 1], i);
    }
  }

  // ---- Counting ----

  lemma {:induction false} CountsAddUp(ops: seq<SyncOp>, listed: Config, calls: seq<Call>)
    requires Follows(ops, listed, calls)
    ensures Count(calls, Applied) + Count(calls, Skipped) + Count(calls, Failed)
            == |calls| - if Stops(LastVerdict(calls)) then 1 else 0
    ensures |Errors(calls)| == Count(calls, Failed)
  {
    if calls != [] {
      CountsAddUp(ops, listed, calls[..|calls| - 1]);
    }
  }
}
