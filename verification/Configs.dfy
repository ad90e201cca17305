// The user table of one telemt node and what an operation does to it.
module Configs {
  import opened Options
  import opened Users

  datatype Record = Record(secret: string, enabled: bool, expiration: Option<string>, maxTcpConns: Option<int>)

  type Config = map<string, Record>

  function At(c: Config, n: string): Option<Record> {
    if n in c then Some(c[n]) else None
  }

  function View(n: string, r: Record): RemoteUser {
    RemoteUser(n, r.enabled, r.expiration, r.maxTcpConns)
  }

  function Patched(r: Record, f: PatchFields): Record {
    Record(r.secret,
           if f.enabled.Some? then f.enabled.value else r.enabled,
           if f.setExpiration then f.expiration else r.expiration,
           if f.setMaxTcpConns then f.maxTcpConns else r.maxTcpConns)
  }

  // The operation finds its user absent (create) or present (patch, delete).
  predicate Fits(op: SyncOp, c: Config) {
    op.Create? <==> op.username !in c
  }

  // The operation on its own user's record.
  function Touch(op: SyncOp, r: Option<Record>): Option<Record> {
    match op
    case Create(_, secret, expiration, conns) => if r.None? then Some(Record(secret, true, expiration, conns)) else r
    case Patch(_, f) => if r.Some? then Some(Patched(r.value, f)) else None
    case Delete(_) => None
  }

  // An operation that does not fit changes nothing.
  function Effect(c: Config, op: SyncOp): Config {
    match Touch(op, At(c, op.username))
    case Some(r) => c[op.username := r]
    case None => c - {op.username}
  }

  function EffectAll(c: Config, ops: seq<SyncOp>): Config {
    if ops == [] then c else Effect(EffectAll(c, ops[..|ops| - 1]), ops[|ops| - 1])
  }

  predicate DistinctOps(ops: seq<SyncOp>) {
    forall i, j :: 0 <= i < j < |ops| ==> ops[i].username != ops[j].username
  }

  function OpNames(ops: seq<SyncOp>): set<string> {
    set i | 0 <= i < |ops| :: ops[i].username
  }

  lemma {:induction false} UntouchedByOthers(c: Config, ops: seq<SyncOp>, n: string)
    requires forall i :: 0 <= i < |ops| ==> ops[i].username != n
    ensures At(EffectAll(c, ops), n) == At(c, n)
  {
    if ops != [] {
      UntouchedByOthers(c, ops[..|ops| - 1], n);
    }
  }

  lemma {:induction false} TouchedOnce(c: Config, ops: seq<SyncOp>, k: nat)
    requires DistinctOps(ops) && k < |ops|
    ensures At(EffectAll(c, ops), ops[k].username) == Touch(ops[k], At(c, ops[k].username))
  {
    if k == |ops| - 1 {
      UntouchedByOthers(c, ops[..k], ops[k].username);
    } else {
      TouchedOnce(c, ops[..|ops| - 1], k);
    }
  }

  lemma SameEverywhere(a: Config, b: Config)
    requires forall n :: At(a, n) == At(b, n)
    ensures a == b
  {
    forall n
      ensures n in a <==> n in b
      ensures n in a ==> a[n] == b[n]
    {
      assert At(a, n) == At(b, n);
    }
  }
}
