// internal/telemtsync/diff.go: the difference between desired and reported users,
// and the guard against mass deletion.
module Diff {
  import opened Users

  const MANAGED_PREFIX := "sub_"

  function EffectivePrefix(managedPrefix: string): string {
    if managedPrefix == "" then MANAGED_PREFIX else managedPrefix
  }

  predicate HasPrefix(name: string, prefix: string) { prefix <= name }

  // Last report of each name, as filling a map in listing order leaves it.
  function RemoteIndex(remote: seq<RemoteUser>): map<string, RemoteUser> {
    if remote == [] then map[]
    else
      var r := remote[|remote| - 1];
      RemoteIndex(remote[..|remote| - 1])[r.username := r]
  }

  function DesiredNames(desired: seq<DesiredUser>): set<string> {
    set i | 0 <= i < |desired| :: desired[i].username
  }

  function CreateOp(d: DesiredUser): SyncOp {
    Create(d.username, d.secret, d.expiration, d.maxTcpConns)
  }

  function Creates(desired: seq<DesiredUser>, index: map<string, RemoteUser>): seq<SyncOp> {
    if desired == [] then []
    else
      var d := desired[|desired| - 1];
      Creates(desired[..|desired| - 1], index) + if d.username in index then [] else [CreateOp(d)]
  }

  function Patches(desired: seq<DesiredUser>, index: map<string, RemoteUser>): seq<SyncOp> {
    if desired == [] then []
    else
      var d := desired[|desired| - 1];
      Patches(desired[..|desired| - 1], index) +
      if d.username in index && !Matches(d, index[d.username])
      then [Patch(d.username, Changes(d, index[d.username]))] else []
  }

  function Deletes(remote: seq<RemoteUser>, desired: set<string>, prefix: string): seq<SyncOp> {
    if remote == [] then []
    else
      var n := remote[|remote| - 1].username;
      Deletes(remote[..|remote| - 1], desired, prefix) +
      if HasPrefix(n, prefix) && n !in desired then [Delete(n)] else []
  }

  lemma DesiredStep(desired: seq<DesiredUser>, i: nat, index: map<string, RemoteUser>)
    requires i < |desired|
    ensures var d := desired[i];
            && DesiredNames(desired[..i + 1]) == DesiredNames(desired[..i]) + {d.username}
            && Creates(desired[..i + 1], index) ==
                 Creates(desired[..i], index) + (if d.username in index then [] else [CreateOp(d)])
            && Patches(desired[..i + 1], index) ==
                 Patches(desired[..i], index)
                 + if d.username in index && !Matches(d, index[d.username])
                   then [Patch(d.username, Changes(d, index[d.username]))] else []
  {
    assert desired[..i + 1][..i] == desired[..i];
  }

  lemma RemoteStep(remote: seq<RemoteUser>, i: nat, desired: set<string>, prefix: string)
    requires i < |remote|
    ensures var r := remote[i];
            && RemoteIndex(remote[..i + 1]) == RemoteIndex(remote[..i])[r.username := r]
            && Deletes(remote[..i + 1], desired, prefix) ==
                 Deletes(remote[..i], desired, prefix)
                 + if HasPrefix(r.username, prefix) && r.username !in desired then [Delete(r.username)] else []
  {
    assert remote[..i + 1][..i] == remote[..i];
  }

  // Creates first, then patches, then deletes.
  function DiffOf(desired: seq<DesiredUser>, remote: seq<RemoteUser>, prefix: string): seq<SyncOp> {
    var index := RemoteIndex(remote);
    Creates(desired, index) + Patches(desired, index) + Deletes(remote, DesiredNames(desired), prefix)
  }

  method ComputeDiff(desired: seq<DesiredUser>, remote: seq<RemoteUser>, managedPrefix: string)
    returns (out: seq<SyncOp>)
    ensures out == DiffOf(desired, remote, EffectivePrefix(managedPrefix))
  {
    var prefix := EffectivePrefix(managedPrefix);
    var remoteByName: map<string, RemoteUser> := map[];
    for i := 0 to |remote|
      invariant remoteByName == RemoteIndex(remote[..i])
    {
      RemoteStep(remote, i, {}, prefix);
      remoteByName := remoteByName[remote[i].username := remote[i]];
    }
    assert remote[..|remote|] == remote;
    var desiredByName: set<string> := {};
    for i := 0 to |desired|
      invariant desiredByName == DesiredNames(desired[..i])
    {
      DesiredStep(desired, i, remoteByName);
      desiredByName := desiredByName + {desired[i].username};
    }
    assert desired[..|desired|] == desired;
    var creates, patches, deletes: seq<SyncOp> := [], [], [];
    for i := 0 to |desired|
      invariant creates == Creates(desired[..i], remoteByName)
      invariant patches == Patches(desired[..i], remoteByName)
    {
      DesiredStep(desired, i, remoteByName);
      var d := desired[i];
      if d.username !in remoteByName {
        creates := creates + [CreateOp(d)];
        continue;
      }
      var f, changed := PatchFieldsFor(d, remoteByName[d.username]);
      if changed {
        patches := patches + [Patch(d.username, f)];
      }
    }
    for i := 0 to |remote|
      invariant deletes == Deletes(remote[..i], desiredByName, prefix)
    {
      RemoteStep(remote, i, desiredByName, prefix);
      var r := remote[i];
      if !HasPrefix(r.username, prefix) {
        continue;
      }
      if r.username !in desiredByName {
        deletes := deletes + [Delete(r.username)];
      }
    }
    out := creates + patches + deletes;
  }

  // ---- The guard ----

  datatype DiffSafety = DiffSafety(totalRemoteManaged: nat, deleteCount: nat, deleteFraction: real)

  datatype MassDeleteOptions = MassDeleteOptions(managedPrefix: string, fractionThreshold: real, minDeletes: int)

  function CountManaged(remote: seq<RemoteUser>, prefix: string): nat {
    if remote == [] then 0
    else
      CountManaged(remote[..|remote| - 1], prefix)
      + if HasPrefix(remote[|remote| - 1].username, prefix) then 1 else 0
  }

  function CountOps(ops: seq<SyncOp>, kind: OpKind): nat {
    if ops == [] then 0
    else CountOps(ops[..|ops| - 1], kind) + if KindOf(ops[|ops| - 1]) == kind then 1 else 0
  }

  function Fraction(deletes: nat, total: nat): real {
    if total > 0 then deletes as real / total as real else 0.0
  }

  function Threshold(opts: MassDeleteOptions): real {
    if opts.fractionThreshold == 0.0 then 0.5 else opts.fractionThreshold
  }

  function MinDeletes(opts: MassDeleteOptions): int {
    if opts.minDeletes == 0 then 5 else opts.minDeletes
  }

  predicate MassDelete(ops: seq<SyncOp>, remote: seq<RemoteUser>, opts: MassDeleteOptions) {
    var d, t := CountOps(ops, OpDelete), CountManaged(remote, EffectivePrefix(opts.managedPrefix));
    d >= MinDeletes(opts) && Fraction(d, t) > Threshold(opts)
  }

  method ComputeSafety(ops: seq<SyncOp>, remote: seq<RemoteUser>, managedPrefix: string) returns (s: DiffSafety)
    ensures s.totalRemoteManaged == CountManaged(remote, EffectivePrefix(managedPrefix))
    ensures s.deleteCount == CountOps(ops, OpDelete)
    ensures s.deleteFraction == Fraction(s.deleteCount, s.totalRemoteManaged)
  {
    var prefix := EffectivePrefix(managedPrefix);
    var total := 0;
    for i := 0 to |remote|
      invariant total == CountManaged(remote[..i], prefix)
    {
      assert remote[..i + 1][..i] == remote[..i];
      if HasPrefix(remote[i].username, prefix) {
        total := total + 1;
      }
    }
    assert remote[..|remote|] == remote;
    var del := 0;
    for i := 0 to |ops|
      invariant del == CountOps(ops[..i], OpDelete)
    {
      assert ops[..i + 1][..i] == ops[..i];
      if ops[i].Delete? {
        del := del + 1;
      }
    }
    assert ops[..|ops|] == ops;
    var fraction := 0.0;
    if total > 0 {
      fraction := del as real / total as real;
    }
    s := DiffSafety(total, del, fraction);
  }

  method IsMassDelete(ops: seq<SyncOp>, remote: seq<RemoteUser>, opts: MassDeleteOptions) returns (b: bool)
    ensures b == MassDelete(ops, remote, opts)
  {
    var ft := opts.fractionThreshold;
    if ft == 0.0 {
      ft := 0.5;
    }
    var md := opts.minDeletes;
    if md == 0 {
      md := 5;
    }
    var s := ComputeSafety(ops, remote, opts.managedPrefix);
    b := s.deleteCount >= md && s.deleteFraction > ft;
  }
}
