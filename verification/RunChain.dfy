// Many runs of the daemon, one after the other, on a node nobody else writes to.
module RunChain {
  import opened Options
  import opened Users
  import opened DiffTheory
  import opened DiffProgress
  import opened Diff
  import opened Telemt
  import opened Sync
  import opened OpLoop
  import opened SyncTheory
  import opened Protocol

  // The attempts of all runs, in order: what they add to the node's log.
  function Sessions(runs: seq<Outcome>): seq<Session> {
    if runs == [] then [] else Sessions(runs[..|runs| - 1]) + runs[|runs| - 1].run
  }

  // Runs for the same desired users, failures, conflicts and lost replies included, with
  // nobody else writing from the first listing to the last call.
  predicate QuietRuns(des: seq<DesiredUser>, opts: SyncOptions, runs: seq<Outcome>) {
    && (forall i :: 0 <= i < |runs| ==> Performs(opts, Some(des), runs[i]))
    && ValidLog(Sessions(runs)) && Quiet(Sessions(runs))
  }

  // The j-th attempt followed its diff and started where the one before it ended.
  predicate Continues(des: seq<DesiredUser>, opts: SyncOptions, log: seq<Session>, j: nat)
    requires j < |log|
  {
    Sound(des, opts, log[j]) && NoForeign(log[j].calls) && (j > 0 ==> log[j].listed == End(log[j - 1]))
  }

  predicate QuietLog(des: seq<DesiredUser>, opts: SyncOptions, log: seq<Session>) {
    forall j :: 0 <= j < |log| ==> Continues(des, opts, log, j)
  }

  lemma {:induction false} LinkedAt(log: seq<Session>, j: nat)
    requires ValidLog(log) && 0 < j < |log| && log[j].foreign == 0
    ensures log[j].listed == End(log[j - 1])
  {
    if j < |log| - 1 {
      LinkedAt(log[..|log| - 1], j);
    }
  }

  lemma RunIsSound(des: seq<DesiredUser>, opts: SyncOptions, o: Outcome, j: nat)
    requires Performs(opts, Some(des), o) && j < |o.run|
    ensures Sound(des, opts, o.run[j])
  {
    AccountsChain(des, opts, o.run, o.res, o.end);
    assert Link(des, opts, o.run, j);
  }

  // Each attempt is that of some run.
  lemma {:induction false} SessionOf(runs: seq<Outcome>, j: nat) returns (i: nat, k: nat)
    requires j < |Sessions(runs)|
    ensures i < |runs| && k < |runs[i].run| && Sessions(runs)[j] == runs[i].run[k]
  {
    var front := Sessions(runs[..|runs| - 1]);
    if j < |front| {
      i, k := SessionOf(runs[..|runs| - 1], j);
    } else {
      i, k := |runs| - 1, j - |front|;
    }
  }

  lemma RunsAreSound(des: seq<DesiredUser>, opts: SyncOptions, runs: seq<Outcome>, j: nat)
    requires forall i :: 0 <= i < |runs| ==> Performs(opts, Some(des), runs[i])
    requires j < |Sessions(runs)|
    ensures Sound(des, opts, Sessions(runs)[j])
  {
    var i, k := SessionOf(runs, j);
    RunIsSound(des, opts, runs[i], k);
  }

  lemma RunsAreQuietLog(des: seq<DesiredUser>, opts: SyncOptions, runs: seq<Outcome>)
    requires QuietRuns(des, opts, runs)
    ensures QuietLog(des, opts, Sessions(runs))
  {
    var log := Sessions(runs);
    forall j | 0 <= j < |log|
      ensures Continues(des, opts, log, j)
    {
      RunsAreSound(des, opts, runs, j);
      if j > 0 {
        LinkedAt(log, j);
      }
    }
  }

  function AllLandings(log: seq<Session>): nat {
    if log == [] then 0 else AllLandings(log[..|log| - 1]) + Landings(log[|log| - 1].calls)
  }

  function AllApplied(log: seq<Session>): nat {
    if log == [] then 0 else AllApplied(log[..|log| - 1]) + Count(log[|log| - 1].calls, Applied)
  }

  // One attempt: what is in its diff has landed or is in the next diff.
  lemma AttemptConserves(des: seq<DesiredUser>, opts: SyncOptions, s: Session, relisting: seq<RemoteUser>)
    requires DistinctDesired(des) && Sound(des, opts, s) && NoForeign(s.calls) && Lists(relisting, End(s))
    ensures |DiffOf(des, relisting, Prefix(opts))| + Landings(s.calls) == |Ops(des, opts, s)|
    ensures Landings(s.calls) >= Count(s.calls, Applied)
  {
    var left := Remaining(Ops(des, opts, s), s.listed, End(s));
    QuietAttempt(des, opts, s);
    ResumeAnywhere(des, Prefix(opts), s.listed, s.listing, End(s), relisting);
    assert |multiset(DiffOf(des, relisting, Prefix(opts)))| == |multiset(left)|;
    LeftAndLanded(des, opts, s);
  }

  lemma {:induction false} LogConserves(des: seq<DesiredUser>, opts: SyncOptions, log: seq<Session>,
                                        relisting: seq<RemoteUser>)
    requires DistinctDesired(des) && QuietLog(des, opts, log) && log != [] && Lists(relisting, End(log[|log| - 1]))
    ensures |DiffOf(des, relisting, Prefix(opts))| + AllLandings(log) == |Ops(des, opts, log[0])|
    ensures AllLandings(log) >= AllApplied(log)
  {
    var n := |log| - 1;
    var front := log[..n];
    assert Continues(des, opts, log, n);
    AttemptConserves(des, opts, log[n], relisting);
    if n > 0 {
      forall j | 0 <= j < n
        ensures Continues(des, opts, front, j)
      {
        assert Continues(des, opts, log, j);
      }
      LogConserves(des, opts, front, log[n].listing);
    }
  }

  // Conservation: over any number of runs, whatever fails or is lost on the way, the
  // changes the node saw and the operations still to do add up to the operations of the
  // first diff. So no operation takes effect twice, what is left never grows and falls
  // with each applied one, and the node is converged exactly when as many changes have
  // landed as that diff had operations.
  lemma RunsConserve(des: seq<DesiredUser>, opts: SyncOptions, runs: seq<Outcome>, relisting: seq<RemoteUser>)
    requires DistinctDesired(des) && QuietRuns(des, opts, runs) && Sessions(runs) != []
    requires Lists(relisting, End(Sessions(runs)[|Sessions(runs)| - 1]))
    ensures var log := Sessions(runs);
            && |DiffOf(des, relisting, Prefix(opts))| + AllLandings(log) == |Ops(des, opts, log[0])|
            && AllApplied(log) <= AllLandings(log)
            && (Converged(des, Prefix(opts), End(log[|log| - 1])) <==> AllLandings(log) == |Ops(des, opts, log[0])|)
  {
    var log := Sessions(runs);
    RunsAreQuietLog(des, opts, runs);
    LogConserves(des, opts, log, relisting);
    EmptyDiffIsConverged(des, relisting, Prefix(opts), End(log[|log| - 1]));
  }
}
