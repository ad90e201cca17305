// What ComputeDiff's operations mean for the node's table, name by name.
module DiffTheory {
  import opened Options
  import opened Users
  import opened Configs
  import opened Diff

  predicate DistinctDesired(des: seq<DesiredUser>) {
    forall i, j :: 0 <= i < j < |des| ==> des[i].username != des[j].username
  }

  predicate DistinctRemote(remote: seq<RemoteUser>) {
    forall i, j :: 0 <= i < j < |remote| ==> remote[i].username != remote[j].username
  }

  function Observed(c: Config): map<string, RemoteUser> {
    map n | n in c :: View(n, c[n])
  }

  // The listing reports every user of the table once, in any order.
  predicate Lists(listing: seq<RemoteUser>, c: Config) {
    DistinctRemote(listing) && RemoteIndex(listing) == Observed(c)
  }

  // ---- One name at a time ----

  function DesiredFor(des: seq<DesiredUser>, n: string): (d: Option<DesiredUser>)
    ensures d.Some? ==> d.value.username == n && d.value in des
    ensures d.None? ==> forall i :: 0 <= i < |des| ==> des[i].username != n
  {
    if des == [] then None
    else if des[|des| - 1].username == n then Some(des[|des| - 1])
    else DesiredFor(des[..|des| - 1], n)
  }

  // The user n is as it should be: desired and matching, or undesired and not ours.
  predicate Settled(des: seq<DesiredUser>, prefix: string, n: string, r: Option<Record>) {
    match DesiredFor(des, n)
    case Some(d) => r.Some? && Matches(d, View(n, r.value))
    case None => r.Some? ==> !HasPrefix(n, prefix)
  }

  // The operation the user n needs.
  function OpAt(des: seq<DesiredUser>, prefix: string, n: string, r: Option<Record>): Option<SyncOp> {
    if Settled(des, prefix, n, r) then None
    else
      match DesiredFor(des, n)
      case None => Some(Delete(n))
      case Some(d) => Some(if r.None? then CreateOp(d) else Patch(n, Changes(d, View(n, r.value))))
  }

  // The record that operation leaves.
  function Goal(des: seq<DesiredUser>, prefix: string, n: string, r: Option<Record>): (g: Option<Record>)
    ensures Settled(des, prefix, n, g)
    ensures g == r <==> Settled(des, prefix, n, r)
    ensures g.Some? && r.Some? ==> g.value.secret == r.value.secret
  {
    match OpAt(des, prefix, n, r)
    case None => r
    case Some(op) => Touch(op, r)
  }

  // Every desired user is present, enabled and equal in expiration and limit;
  // no user with the managed prefix is left that is not desired.
  predicate Converged(des: seq<DesiredUser>, prefix: string, c: Config) {
    && (forall d :: d in des ==> d.username in c && Matches(d, View(d.username, c[d.username])))
    && (forall n :: n in c && HasPrefix(n, prefix) ==> n in DesiredNames(des))
  }

  lemma DesiredForEach(des: seq<DesiredUser>, d: DesiredUser)
    requires DistinctDesired(des) && d in des
    ensures DesiredFor(des, d.username) == Some(d)
  {
  }

  lemma ConvergedByName(des: seq<DesiredUser>, prefix: string, c: Config)
    requires DistinctDesired(des)
    ensures Converged(des, prefix, c) <==> forall n :: Settled(des, prefix, n, At(c, n))
  {
    if Converged(des, prefix, c) {
      forall n
        ensures Settled(des, prefix, n, At(c, n))
      {
        assert n in DesiredNames(des) <==> DesiredFor(des, n).Some?;
      }
    }
    if forall n :: Settled(des, prefix, n, At(c, n)) {
      forall d | d in des
        ensures d.username in c && Matches(d, View(d.username, c[d.username]))
      {
        DesiredForEach(des, d);
        assert Settled(des, prefix, d.username, At(c, d.username));
      }
      forall n | n in c && HasPrefix(n, prefix)
        ensures n in DesiredNames(des)
      {
        assert Settled(des, prefix, n, At(c, n));
      }
    }
  }

  // ---- ComputeDiff holds exactly the operations the names need ----

  lemma {:induction false} CreateMember(des: seq<DesiredUser>, index: map<string, RemoteUser>, op: SyncOp)
    requires DistinctDesired(des)
    ensures op in Creates(des, index) <==>
            op.username !in index && DesiredFor(des, op.username).Some?
            && op == CreateOp(DesiredFor(des, op.username).value)
  {
    if des != [] {
      CreateMember(des[..|des| - 1], index, op);
    }
  }

  lemma {:induction false} PatchMember(des: seq<DesiredUser>, index: map<string, RemoteUser>, op: SyncOp)
    requires DistinctDesired(des)
    ensures op in Patches(des, index) <==>
            op.username in index && DesiredFor(des, op.username).Some?
            && var d, r := DesiredFor(des, op.username).value, index[op.username];
               !Matches(d, r) && op == Patch(op.username, Changes(d, r))
  {
    if des != [] {
      PatchMember(des[..|des| - 1], index, op);
    }
  }

  lemma {:induction false} DeleteMember(remote: seq<RemoteUser>, desired: set<string>, prefix: string, op: SyncOp)
    ensures op in Deletes(remote, desired, prefix) <==>
            op.username in RemoteIndex(remote) && HasPrefix(op.username, prefix)
            && op.username !in desired && op.Delete?
  {
    if remote != [] {
      DeleteMember(remote[..|remote| - 1], desired, prefix, op);
    }
  }

  lemma DiffMember(des: seq<DesiredUser>, listing: seq<RemoteUser>, prefix: string, c: Config, op: SyncOp)
    requires DistinctDesired(des) && Lists(listing, c)
    ensures op in DiffOf(des, listing, prefix) <==> OpAt(des, prefix, op.username, At(c, op.username)) == Some(op)
  {
    var index, n := RemoteIndex(listing), op.username;
    CreateMember(des, index, op);
    PatchMember(des, index, op);
    DeleteMember(listing, DesiredNames(des), prefix, op);
    assert n in DesiredNames(des) <==> DesiredFor(des, n).Some?;
  }

  lemma {:induction false} CreatesDistinct(des: seq<DesiredUser>, index: map<string, RemoteUser>)
    requires DistinctDesired(des)
    ensures DistinctOps(Creates(des, index))
  {
    if des != [] {
      var front := des[..|des| - 1];
      CreatesDistinct(front, index);
      forall op | op in Creates(front, index)
        ensures op.username != des[|des| - 1].username
      {
        CreateMember(front, index, op);
      }
    }
  }

  lemma {:induction false} PatchesDistinct(des: seq<DesiredUser>, index: map<string, RemoteUser>)
    requires DistinctDesired(des)
    ensures DistinctOps(Patches(des, index))
  {
    if des != [] {
      var front := des[..|des| - 1];
      PatchesDistinct(front, index);
      forall op | op in Patches(front, index)
        ensures op.username != des[|des| - 1].username
      {
        PatchMember(front, index, op);
      }
    }
  }

  lemma {:induction false} IndexNames(remote: seq<RemoteUser>, n: string)
    ensures n in RemoteIndex(remote) <==> exists i :: 0 <= i < |remote| && remote[i].username == n
  {
    if remote != [] {
      var front := remote[..|remote| - 1];
      IndexNames(front, n);
      if n in RemoteIndex(front) {
        var i :| 0 <= i < |front| && front[i].username == n;
        assert remote[i].username == n;
      }
    }
  }

  lemma {:induction false} DeletesDistinct(remote: seq<RemoteUser>, desired: set<string>, prefix: string)
    requires DistinctRemote(remote)
    ensures DistinctOps(Deletes(remote, desired, prefix))
  {
    if remote != [] {
      var front := remote[..|remote| - 1];
      DeletesDistinct(front, desired, prefix);
      forall op | op in Deletes(front, desired, prefix)
        ensures op.username != remote[|remote| - 1].username
      {
        DeleteMember(front, desired, prefix, op);
        IndexNames(front, op.username);
      }
    }
  }

  lemma DistinctConcat(a: seq<SyncOp>, b: seq<SyncOp>)
    requires DistinctOps(a) && DistinctOps(b)
    requires forall p, q :: p in a && q in b ==> p.username != q.username
    ensures DistinctOps(a + b)
  {
  }

  // Each name occurs in at most one operation.
  lemma DiffDistinct(des: seq<DesiredUser>, listing: seq<RemoteUser>, prefix: string)
    requires DistinctDesired(des) && DistinctRemote(listing)
    ensures DistinctOps(DiffOf(des, listing, prefix))
  {
    var index := RemoteIndex(listing);
    var a, b, d := Creates(des, index), Patches(des, index), Deletes(listing, DesiredNames(des), prefix);
    CreatesDistinct(des, index);
    PatchesDistinct(des, index);
    DeletesDistinct(listing, DesiredNames(des), prefix);
    forall p, q | p in a && q in b
      ensures p.username != q.username
    {
      CreateMember(des, index, p);
      PatchMember(des, index, q);
    }
    DistinctConcat(a, b);
    forall p, q | p in a + b && q in d
      ensures p.username != q.username
    {
      CreateMember(des, index, p);
      PatchMember(des, index, p);
      DeleteMember(listing, DesiredNames(des), prefix, q);
      assert DesiredFor(des, p.username).Some? ==> p.username in DesiredNames(des);
    }
    DistinctConcat(a + b, d);
  }

  // ---- Applying the diff ----

  // Some of the operations, each at most once, in any order.
  predicate Selection(sub: seq<SyncOp>, ops: seq<SyncOp>) {
    DistinctOps(sub) && forall i :: 0 <= i < |sub| ==> sub[i] in ops
  }

  // After any selection of the diff's operations each name is either untouched or at its goal.
  lemma SelectionByName(des: seq<DesiredUser>, listing: seq<RemoteUser>, prefix: string, c: Config,
                        sub: seq<SyncOp>, n: string)
    requires DistinctDesired(des) && Lists(listing, c) && Selection(sub, DiffOf(des, listing, prefix))
    ensures At(EffectAll(c, sub), n) == if n in OpNames(sub) then Goal(des, prefix, n, At(c, n)) else At(c, n)
  {
    if n in OpNames(sub) {
      var k :| 0 <= k < |sub| && sub[k].username == n;
      TouchedOnce(c, sub, k);
      DiffMember(des, listing, prefix, c, sub[k]);
    } else {
      UntouchedByOthers(c, sub, n);
    }
  }

  // An operation not yet applied still fits, whatever other ones were applied.
  lemma {:induction false} StillFits(des: seq<DesiredUser>, listing: seq<RemoteUser>, prefix: string, c: Config,
                                     sub: seq<SyncOp>, op: SyncOp)
    requires DistinctDesired(des) && Lists(listing, c)
    requires op in DiffOf(des, listing, prefix) && forall i :: 0 <= i < |sub| ==> sub[i].username != op.username
    ensures Fits(op, EffectAll(c, sub)) && At(EffectAll(c, sub), op.username) == At(c, op.username)
  {
    DiffMember(des, listing, prefix, c, op);
    UntouchedByOthers(c, sub, op.username);
  }

  lemma OpNamesOfDiff(des: seq<DesiredUser>, listing: seq<RemoteUser>, prefix: string, c: Config, n: string)
    requires DistinctDesired(des) && Lists(listing, c)
    ensures n in OpNames(DiffOf(des, listing, prefix)) <==> !Settled(des, prefix, n, At(c, n))
  {
    var ops := DiffOf(des, listing, prefix);
    if n in OpNames(ops) {
      var k :| 0 <= k < |ops| && ops[k].username == n;
      DiffMember(des, listing, prefix, c, ops[k]);
    }
    if !Settled(des, prefix, n, At(c, n)) {
      var op := OpAt(des, prefix, n, At(c, n)).value;
      assert op.username == n;
      DiffMember(des, listing, prefix, c, op);
      var k :| 0 <= k < |ops| && ops[k] == op;
    }
  }

  // The whole diff takes every name to its goal: the node converges, and names
  // that are neither desired nor managed, and names already right, keep their records.
  lemma DiffConverges(des: seq<DesiredUser>, listing: seq<RemoteUser>, prefix: string, c: Config)
    requires DistinctDesired(des) && Lists(listing, c)
    ensures var after := EffectAll(c, DiffOf(des, listing, prefix));
            && Converged(des, prefix, after)
            && (forall n :: At(after, n) == Goal(des, prefix, n, At(c, n)))
            && after.Keys == DesiredNames(des) + set n | n in c && !HasPrefix(n, prefix)
  {
    var ops := DiffOf(des, listing, prefix);
    var after := EffectAll(c, ops);
    DiffDistinct(des, listing, prefix);
    forall n
      ensures At(after, n) == Goal(des, prefix, n, At(c, n))
    {
      SelectionByName(des, listing, prefix, c, ops, n);
      OpNamesOfDiff(des, listing, prefix, c, n);
    }
    ConvergedByName(des, prefix, after);
    forall n
      ensures n in after <==> n in DesiredNames(des) + set n | n in c && !HasPrefix(n, prefix)
    {
      assert At(after, n) == Goal(des, prefix, n, At(c, n));
      assert n in DesiredNames(des) <==> DesiredFor(des, n).Some?;
    }
  }

  // No operation of the diff, run in order, ever finds its user in the wrong state.
  lemma DiffFitsInOrder(des: seq<DesiredUser>, listing: seq<RemoteUser>, prefix: string, c: Config, k: nat)
    requires DistinctDesired(des) && Lists(listing, c) && k < |DiffOf(des, listing, prefix)|
    ensures var ops := DiffOf(des, listing, prefix); Fits(ops[k], EffectAll(c, ops[..k]))
  {
    DiffDistinct(des, listing, prefix);
    var ops := DiffOf(des, listing, prefix);
    StillFits(des, listing, prefix, c, ops[..k], ops[k]);
  }

  // Nothing to do exactly when the node is converged.
  lemma EmptyDiffIsConverged(des: seq<DesiredUser>, listing: seq<RemoteUser>, prefix: string, c: Config)
    requires DistinctDesired(des) && Lists(listing, c)
    ensures DiffOf(des, listing, prefix) == [] <==> Converged(des, prefix, c)
  {
    var ops := DiffOf(des, listing, prefix);
    ConvergedByName(des, prefix, c);
    if ops == [] {
      forall n
        ensures Settled(des, prefix, n, At(c, n))
      {
        OpNamesOfDiff(des, listing, prefix, c, n);
      }
    } else {
      OpNamesOfDiff(des, listing, prefix, c, ops[0].username);
    }
  }

  // ---- Minimality ----

  lemma {:induction false} NamesAtMost(ops: seq<SyncOp>)
    ensures |OpNames(ops)| <= |ops|
    ensures DistinctOps(ops) ==> |OpNames(ops)| == |ops|
  {
    if ops != [] {
      var front, last := ops[..|ops| - 1], ops[|ops| - 1].username;
      NamesAtMost(front);
      assert OpNames(ops) == OpNames(front) + {last} by {
        assert forall i :: 0 <= i < |ops| ==> ops[i].username in OpNames(front) + {last};
        assert forall i :: 0 <= i < |front| ==> ops[i].username == front[i].username;
      }
    }
  }

  lemma SubsetSize<T>(a: set<T>, b: set<T>)
    requires a <= b
    ensures |a| <= |b|
  {
    assert b == a + (b - a);
  }

  // Any list of operations that brings the node to a converged state, whatever
  // the operations are, is at least as long as the diff.
  lemma {:induction false} DiffIsMinimal(des: seq<DesiredUser>, listing: seq<RemoteUser>, prefix: string, c: Config,
                                         other: seq<SyncOp>)
    requires DistinctDesired(des) && Lists(listing, c)
    requires Converged(des, prefix, EffectAll(c, other))
    ensures |DiffOf(des, listing, prefix)| <= |other|
  {
    var ops := DiffOf(des, listing, prefix);
    DiffDistinct(des, listing, prefix);
    NamesAtMost(ops);
    NamesAtMost(other);
    ConvergedByName(des, prefix, EffectAll(c, other));
    forall n | n in OpNames(ops)
      ensures n in OpNames(other)
    {
      OpNamesOfDiff(des, listing, prefix, c, n);
      assert Settled(des, prefix, n, At(EffectAll(c, other), n));
      if n !in OpNames(other) {
        UntouchedByOthers(c, other, n);
      }
    }
    SubsetSize(OpNames(ops), OpNames(other));
  }
}
