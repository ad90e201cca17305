// Retrying: what the diff, and the guard on it, become after part of it was applied.
module DiffProgress {
  import opened Users
  import opened Configs
  import opened Diff
  import opened DiffTheory

  // Every name is as it was in c or already at its goal.
  ghost predicate Between(des: seq<DesiredUser>, prefix: string, c: Config, later: Config) {
    forall n :: At(later, n) == At(c, n) || At(later, n) == Goal(des, prefix, n, At(c, n))
  }

  lemma SelectionIsBetween(des: seq<DesiredUser>, listing: seq<RemoteUser>, prefix: string, c: Config, sub: seq<SyncOp>)
    requires DistinctDesired(des) && Lists(listing, c) && Selection(sub, DiffOf(des, listing, prefix))
    ensures Between(des, prefix, c, EffectAll(c, sub))
  {
    forall n
      ensures At(EffectAll(c, sub), n) == At(c, n) || At(EffectAll(c, sub), n) == Goal(des, prefix, n, At(c, n))
    {
      SelectionByName(des, listing, prefix, c, sub, n);
    }
  }

  lemma BetweenTransitive(des: seq<DesiredUser>, prefix: string, a: Config, b: Config, c: Config)
    requires Between(des, prefix, a, b) && Between(des, prefix, b, c)
    ensures Between(des, prefix, a, c)
  {
  }

  // ---- Resumption ----

  // The operations whose user has not changed since.
  function Remaining(ops: seq<SyncOp>, c: Config, later: Config): seq<SyncOp> {
    if ops == [] then []
    else
      var op := ops[|ops| - 1];
      Remaining(ops[..|ops| - 1], c, later) + if At(later, op.username) == At(c, op.username) then [op] else []
  }

  lemma {:induction false} RemainingMember(ops: seq<SyncOp>, c: Config, later: Config, op: SyncOp)
    ensures op in Remaining(ops, c, later) <==> op in ops && At(later, op.username) == At(c, op.username)
  {
    if ops != [] {
      RemainingMember(ops[..|ops| - 1], c, later, op);
    }
  }

  lemma {:induction false} RemainingDistinct(ops: seq<SyncOp>, c: Config, later: Config)
    requires DistinctOps(ops)
    ensures DistinctOps(Remaining(ops, c, later))
  {
    if ops != [] {
      var front := ops[..|ops| - 1];
      RemainingDistinct(front, c, later);
      forall op | op in Remaining(front, c, later)
        ensures op.username != ops[|ops| - 1].username
      {
        RemainingMember(front, c, later, op);
      }
    }
  }

  lemma RemainingSnoc(ops: seq<SyncOp>, op: SyncOp, c: Config, later: Config)
    ensures Remaining(ops + [op], c, later) ==
            Remaining(ops, c, later) + if At(later, op.username) == At(c, op.username) then [op] else []
  {
  }

  lemma {:induction false} SameCreates(des: seq<DesiredUser>, all: seq<DesiredUser>, prefix: string,
                                       c: Config, later: Config)
    requires DistinctDesired(all) && Between(all, prefix, c, later) && des <= all
    ensures Creates(des, Observed(later)) == Remaining(Creates(des, Observed(c)), c, later)
  {
    if des != [] {
      var d := des[|des| - 1];
      var n, front := d.username, Creates(des[..|des| - 1], Observed(c));
      SameCreates(des[..|des| - 1], all, prefix, c, later);
      DesiredForEach(all, d);
      assert At(later, n) == At(c, n) || At(later, n) == Goal(all, prefix, n, At(c, n));
      RemainingSnoc(front, CreateOp(d), c, later);
      assert n in Observed(c) <==> n in c;
      assert n in Observed(later) <==> n in later;
      assert front + [] == front;
      assert Remaining(front, c, later) + [] == Remaining(front, c, later);
    }
  }

  lemma {:induction false} SamePatches(des: seq<DesiredUser>, all: seq<DesiredUser>, prefix: string,
                                       c: Config, later: Config)
    requires DistinctDesired(all) && Between(all, prefix, c, later) && des <= all
    ensures Patches(des, Observed(later)) == Remaining(Patches(des, Observed(c)), c, later)
  {
    if des != [] {
      var d := des[|des| - 1];
      var n, front := d.username, Patches(des[..|des| - 1], Observed(c));
      SamePatches(des[..|des| - 1], all, prefix, c, later);
      DesiredForEach(all, d);
      assert At(later, n) == At(c, n) || At(later, n) == Goal(all, prefix, n, At(c, n));
      assert n in Observed(later) <==> n in later;
      assert front + [] == front;
      assert Remaining(front, c, later) + [] == Remaining(front, c, later);
      if n in c {
        RemainingSnoc(front, Patch(n, Changes(d, View(n, c[n]))), c, later);
        assert Goal(all, prefix, n, At(c, n)) == At(c, n) <==> Matches(d, View(n, c[n]));
      }
    }
  }

  lemma {:induction false} Multiplicity(a: seq<SyncOp>, op: SyncOp)
    requires DistinctOps(a)
    ensures multiset(a)[op] == if op in a then 1 else 0
  {
    if a != [] {
      assert a == a[..|a| - 1] + [a[|a| - 1]];
      Multiplicity(a[..|a| - 1], op);
    }
  }

  lemma MultisetByMembers(a: seq<SyncOp>, b: seq<SyncOp>)
    requires DistinctOps(a) && DistinctOps(b) && forall op :: op in a <==> op in b
    ensures multiset(a) == multiset(b)
  {
    forall op
      ensures multiset(a)[op] == multiset(b)[op]
    {
      Multiplicity(a, op);
      Multiplicity(b, op);
    }
  }

  // Recomputing the diff after any part of it was applied, whatever order the node
  // now lists its users in, gives exactly the operations left: the creates and the
  // patches in their order, the deletes up to their order.
  lemma ResumeAnywhere(des: seq<DesiredUser>, prefix: string, c: Config, listing: seq<RemoteUser>,
                       later: Config, relisting: seq<RemoteUser>)
    requires DistinctDesired(des) && Lists(listing, c) && Lists(relisting, later)
    requires Between(des, prefix, c, later)
    ensures Creates(des, RemoteIndex(relisting)) == Remaining(Creates(des, RemoteIndex(listing)), c, later)
    ensures Patches(des, RemoteIndex(relisting)) == Remaining(Patches(des, RemoteIndex(listing)), c, later)
    ensures multiset(DiffOf(des, relisting, prefix)) == multiset(Remaining(DiffOf(des, listing, prefix), c, later))
  {
    SameCreates(des, des, prefix, c, later);
    SamePatches(des, des, prefix, c, later);
    var ops, again := DiffOf(des, listing, prefix), DiffOf(des, relisting, prefix);
    DiffDistinct(des, listing, prefix);
    DiffDistinct(des, relisting, prefix);
    RemainingDistinct(ops, c, later);
    forall op
      ensures op in again <==> op in Remaining(ops, c, later)
    {
      RemainingMember(ops, c, later, op);
      DiffMember(des, listing, prefix, c, op);
      DiffMember(des, relisting, prefix, later, op);
      assert At(later, op.username) == At(c, op.username)
             || At(later, op.username) == Goal(des, prefix, op.username, At(c, op.username));
    }
    MultisetByMembers(again, Remaining(ops, c, later));
  }

  lemma {:induction false} RemainingConcat(a: seq<SyncOp>, b: seq<SyncOp>, c: Config, later: Config)
    ensures Remaining(a + b, c, later) == Remaining(a, c, later) + Remaining(b, c, later)
  {
    if b == [] {
      assert a + b == a;
    } else {
      var front, op := b[..|b| - 1], b[|b| - 1];
      assert a + b == a + front + [op];
      RemainingSnoc(a + front, op, c, later);
      RemainingConcat(a, front, c, later);
    }
  }

  lemma {:induction false} AllOrNoneRemain(ops: seq<SyncOp>, c: Config, later: Config, all: bool)
    requires forall i :: 0 <= i < |ops| ==> (At(later, ops[i].username) == At(c, ops[i].username) <==> all)
    ensures Remaining(ops, c, later) == if all then ops else []
  {
    if ops != [] {
      AllOrNoneRemain(ops[..|ops| - 1], c, later, all);
    }
  }

  lemma SuffixRemains(ops: seq<SyncOp>, k: nat, c: Config, later: Config)
    requires k <= |ops|
    requires forall i :: 0 <= i < |ops| ==> (At(later, ops[i].username) == At(c, ops[i].username) <==> i >= k)
    ensures Remaining(ops, c, later) == ops[k..]
  {
    AllOrNoneRemain(ops[..k], c, later, false);
    AllOrNoneRemain(ops[k..], c, later, true);
    RemainingConcat(ops[..k], ops[k..], c, later);
    assert ops == ops[..k] + ops[k..];
  }

  // After the first k operations of the diff, exactly the others are left.
  lemma ResumeAfterPrefix(des: seq<DesiredUser>, prefix: string, c: Config, listing: seq<RemoteUser>,
                          k: nat, relisting: seq<RemoteUser>)
    requires DistinctDesired(des) && Lists(listing, c) && k <= |DiffOf(des, listing, prefix)|
    requires Lists(relisting, EffectAll(c, DiffOf(des, listing, prefix)[..k]))
    ensures multiset(DiffOf(des, relisting, prefix)) == multiset(DiffOf(des, listing, prefix)[k..])
    ensures |DiffOf(des, relisting, prefix)| == |DiffOf(des, listing, prefix)| - k
  {
    var ops := DiffOf(des, listing, prefix);
    var later := EffectAll(c, ops[..k]);
    DiffDistinct(des, listing, prefix);
    SelectionIsBetween(des, listing, prefix, c, ops[..k]);
    ResumeAnywhere(des, prefix, c, listing, later, relisting);
    ChangedByPrefix(des, prefix, c, listing, k);
    SuffixRemains(ops, k, c, later);
    assert |multiset(DiffOf(des, relisting, prefix))| == |multiset(ops[k..])|;
  }

  lemma ChangedByPrefix(des: seq<DesiredUser>, prefix: string, c: Config, listing: seq<RemoteUser>, k: nat)
    requires DistinctDesired(des) && Lists(listing, c) && k <= |DiffOf(des, listing, prefix)|
    ensures var ops := DiffOf(des, listing, prefix);
            forall i :: 0 <= i < |ops| ==>
              (At(EffectAll(c, ops[..k]), ops[i].username) == At(c, ops[i].username) <==> i >= k)
  {
    var ops := DiffOf(des, listing, prefix);
    DiffDistinct(des, listing, prefix);
    forall i | 0 <= i < |ops|
      ensures At(EffectAll(c, ops[..k]), ops[i].username) == At(c, ops[i].username) <==> i >= k
    {
      if i < k {
        DiffMember(des, listing, prefix, c, ops[i]);
        TouchedOnce(c, ops[..k], i);
        assert Goal(des, prefix, ops[i].username, At(c, ops[i].username)) == Touch(ops[i], At(c, ops[i].username));
      } else {
        UntouchedByOthers(c, ops[..k], ops[i].username);
      }
    }
  }

  // The number of operations strictly falls with every change of the node on the way.
  lemma ProgressShrinksDiff(des: seq<DesiredUser>, prefix: string, c: Config, listing: seq<RemoteUser>,
                            later: Config, relisting: seq<RemoteUser>)
    requires DistinctDesired(des) && Lists(listing, c) && Lists(relisting, later)
    requires Between(des, prefix, c, later)
    ensures |DiffOf(des, relisting, prefix)| <= |DiffOf(des, listing, prefix)|
    ensures later != c ==> |DiffOf(des, relisting, prefix)| < |DiffOf(des, listing, prefix)|
  {
    var ops, again := DiffOf(des, listing, prefix), DiffOf(des, relisting, prefix);
    DiffDistinct(des, listing, prefix);
    DiffDistinct(des, relisting, prefix);
    NamesAtMost(ops);
    NamesAtMost(again);
    forall n | n in OpNames(again)
      ensures n in OpNames(ops) && At(later, n) == At(c, n)
    {
      OpNamesOfDiff(des, listing, prefix, c, n);
      OpNamesOfDiff(des, relisting, prefix, later, n);
      assert At(later, n) == At(c, n) || At(later, n) == Goal(des, prefix, n, At(c, n));
    }
    SubsetSize(OpNames(again), OpNames(ops));
    if later != c {
      var n :| At(later, n) != At(c, n) by {
        if forall n :: At(later, n) == At(c, n) {
          SameEverywhere(later, c);
        }
      }
      assert At(later, n) == Goal(des, prefix, n, At(c, n));
      OpNamesOfDiff(des, listing, prefix, c, n);
      SubsetSize(OpNames(again), OpNames(ops) - {n});
    }
  }

  // ---- The guard ----

  function Managed(prefix: string, c: Config): set<string> {
    set n | n in c && HasPrefix(n, prefix)
  }

  function Doomed(des: seq<DesiredUser>, prefix: string, c: Config): set<string> {
    Managed(prefix, c) - DesiredNames(des)
  }

  lemma {:induction false} CountManagedIsSize(remote: seq<RemoteUser>, prefix: string)
    requires DistinctRemote(remote)
    ensures CountManaged(remote, prefix) == |set n | n in RemoteIndex(remote) && HasPrefix(n, prefix)|
  {
    if remote != [] {
      var front, last := remote[..|remote| - 1], remote[|remote| - 1].username;
      CountManagedIsSize(front, prefix);
      IndexNames(front, last);
      var before := set n | n in RemoteIndex(front) && HasPrefix(n, prefix);
      var after := set n | n in RemoteIndex(remote) && HasPrefix(n, prefix);
      assert after == before + if HasPrefix(last, prefix) then {last} else {};
    }
  }

  lemma {:induction false} CountDeletesSplit(a: seq<SyncOp>, b: seq<SyncOp>)
    ensures CountOps(a + b, OpDelete) == CountOps(a, OpDelete) + CountOps(b, OpDelete)
  {
    if b == [] {
      assert a + b == a;
    } else {
      assert (a + b)[..|a + b| - 1] == a + b[..|b| - 1];
      CountDeletesSplit(a, b[..|b| - 1]);
    }
  }

  lemma {:induction false} CountDeletesOfKind(ops: seq<SyncOp>)
    ensures (forall op :: op in ops ==> !op.Delete?) ==> CountOps(ops, OpDelete) == 0
    ensures (forall op :: op in ops ==> op.Delete?) ==> CountOps(ops, OpDelete) == |ops|
  {
    if ops != [] {
      assert ops[|ops| - 1] in ops;
      CountDeletesOfKind(ops[..|ops| - 1]);
    }
  }

  // Which positions of the diff are deletes.
  lemma DeletesComeLast(des: seq<DesiredUser>, listing: seq<RemoteUser>, prefix: string)
    requires DistinctDesired(des)
    ensures var index := RemoteIndex(listing);
            && (forall op :: op in Creates(des, index) + Patches(des, index) ==> !op.Delete?)
            && (forall op :: op in Deletes(listing, DesiredNames(des), prefix) ==> op.Delete?)
  {
    var index := RemoteIndex(listing);
    forall op
      ensures op in Creates(des, index) ==> !op.Delete?
      ensures op in Patches(des, index) ==> !op.Delete?
      ensures op in Deletes(listing, DesiredNames(des), prefix) ==> op.Delete?
    {
      CreateMember(des, index, op);
      PatchMember(des, index, op);
      DeleteMember(listing, DesiredNames(des), prefix, op);
    }
  }

  lemma DeleteNames(des: seq<DesiredUser>, listing: seq<RemoteUser>, prefix: string, c: Config)
    requires DistinctDesired(des) && Lists(listing, c)
    ensures |Deletes(listing, DesiredNames(des), prefix)| == |Doomed(des, prefix, c)|
  {
    var deletes := Deletes(listing, DesiredNames(des), prefix);
    DeletesDistinct(listing, DesiredNames(des), prefix);
    NamesAtMost(deletes);
    forall n
      ensures n in OpNames(deletes) <==> n in Doomed(des, prefix, c)
    {
      DeleteMember(listing, DesiredNames(des), prefix, Delete(n));
      if n in OpNames(deletes) {
        var k :| 0 <= k < |deletes| && deletes[k].username == n;
        DeleteMember(listing, DesiredNames(des), prefix, deletes[k]);
      }
    }
    assert OpNames(deletes) == Doomed(des, prefix, c);
  }

  // The guard's two counters are the sizes of two sets of names.
  lemma SafetyCounts(des: seq<DesiredUser>, listing: seq<RemoteUser>, prefix: string, c: Config)
    requires DistinctDesired(des) && Lists(listing, c)
    ensures CountManaged(listing, prefix) == |Managed(prefix, c)|
    ensures CountOps(DiffOf(des, listing, prefix), OpDelete) == |Doomed(des, prefix, c)|
  {
    CountManagedIsSize(listing, prefix);
    assert Managed(prefix, c) == set n | n in RemoteIndex(listing) && HasPrefix(n, prefix);
    var index := RemoteIndex(listing);
    var others, deletes := Creates(des, index) + Patches(des, index), Deletes(listing, DesiredNames(des), prefix);
    DeletesComeLast(des, listing, prefix);
    CountDeletesSplit(others, deletes);
    CountDeletesOfKind(others);
    CountDeletesOfKind(deletes);
    DeleteNames(des, listing, prefix, c);
  }

  lemma FractionShrinks(d: nat, t: nat, e: nat, u: nat)
    requires e <= d <= t && t - (d - e) <= u
    ensures Fraction(e, u) <= Fraction(d, t)
  {
    if t > 0 && u > 0 {
      CrossProducts(d, t, e, u);
      assert e as real * t as real == (e * t) as real && d as real * u as real == (d * u) as real;
      CrossMultiply(e as real, u as real, d as real, t as real);
    }
  }

  lemma CrossProducts(d: nat, t: nat, e: nat, u: nat)
    requires e <= d <= t && t - (d - e) <= u
    ensures e * t <= d * u
  {
  }

  lemma CrossMultiply(x: real, y: real, z: real, w: real)
    requires y > 0.0 && w > 0.0 && x * w <= z * y
    ensures x / y <= z / w
  {
  }

  // Progress never adds a doomed user, and a managed user only leaves by being doomed.
  lemma ProgressOnSets(des: seq<DesiredUser>, prefix: string, c: Config, later: Config)
    requires Between(des, prefix, c, later)
    ensures Doomed(des, prefix, later) <= Doomed(des, prefix, c)
    ensures Managed(prefix, c) - Managed(prefix, later) <= Doomed(des, prefix, c) - Doomed(des, prefix, later)
  {
    forall n
      ensures n in Doomed(des, prefix, later) ==> n in Doomed(des, prefix, c)
      ensures n in Managed(prefix, c) && n !in Managed(prefix, later) ==>
                n in Doomed(des, prefix, c) && n !in Doomed(des, prefix, later)
    {
      assert At(later, n) == At(c, n) || At(later, n) == Goal(des, prefix, n, At(c, n));
      assert n in DesiredNames(des) <==> DesiredFor(des, n).Some?;
    }
  }

  lemma DifferenceSize<T>(a: set<T>, b: set<T>)
    requires b <= a
    ensures |a - b| == |a| - |b|
  {
  }

  // A diff the guard lets through stays let through while it is being applied,
  // for every threshold and every minimum.
  lemma GuardIsMonotone(des: seq<DesiredUser>, opts: MassDeleteOptions, c: Config, listing: seq<RemoteUser>,
                        later: Config, relisting: seq<RemoteUser>)
    requires DistinctDesired(des) && Lists(listing, c) && Lists(relisting, later)
    requires Between(des, EffectivePrefix(opts.managedPrefix), c, later)
    requires !MassDelete(DiffOf(des, listing, EffectivePrefix(opts.managedPrefix)), listing, opts)
    ensures !MassDelete(DiffOf(des, relisting, EffectivePrefix(opts.managedPrefix)), relisting, opts)
  {
    var prefix := EffectivePrefix(opts.managedPrefix);
    SafetyCounts(des, listing, prefix, c);
    SafetyCounts(des, relisting, prefix, later);
    ProgressOnSets(des, prefix, c, later);
    var doomed, doomed' := Doomed(des, prefix, c), Doomed(des, prefix, later);
    var managed, managed' := Managed(prefix, c), Managed(prefix, later);
    var gone := doomed - doomed';
    assert managed - gone <= managed';
    SubsetSize(doomed', doomed);
    SubsetSize(doomed, managed);
    SubsetSize(managed - gone, managed');
    DifferenceSize(doomed, doomed');
    DifferenceSize(managed, gone);
    FractionShrinks(|doomed|, |managed|, |doomed'|, |managed'|);
  }

  // ---- The last user ----

  // Once the deletes begin, every desired user is on the node.
  lemma DesiredPresent(des: seq<DesiredUser>, listing: seq<RemoteUser>, prefix: string, c: Config,
                       k: nat, d: DesiredUser)
    requires DistinctDesired(des) && Lists(listing, c) && d in des
    requires k < |DiffOf(des, listing, prefix)| && DiffOf(des, listing, prefix)[k].Delete?
    ensures d.username in EffectAll(c, DiffOf(des, listing, prefix)[..k])
  {
    var ops := DiffOf(des, listing, prefix);
    var index := RemoteIndex(listing);
    var others := Creates(des, index) + Patches(des, index);
    DiffDistinct(des, listing, prefix);
    DesiredForEach(des, d);
    assert k < |others| ==> ops[k] in others;
    DeletesComeLast(des, listing, prefix);
    SelectionByName(des, listing, prefix, c, ops[..k], d.username);
    if d.username !in c {
      CreateMember(des, index, CreateOp(d));
      var i :| 0 <= i < |Creates(des, index)| && Creates(des, index)[i] == CreateOp(d);
      assert ops[..k][i].username == d.username;
    }
  }

  // Someone other than the user the k-th operation deletes is still there.
  lemma OthersPresent(des: seq<DesiredUser>, listing: seq<RemoteUser>, prefix: string, c: Config, k: nat)
    returns (n: string)
    requires DistinctDesired(des) && Lists(listing, c)
    requires k < |DiffOf(des, listing, prefix)| && DiffOf(des, listing, prefix)[k].Delete?
    requires des != [] || (exists n :: n in c && !HasPrefix(n, prefix)) || k < |DiffOf(des, listing, prefix)| - 1
    ensures var ops := DiffOf(des, listing, prefix); n != ops[k].username && n in EffectAll(c, ops[..k])
  {
    var ops := DiffOf(des, listing, prefix);
    DiffDistinct(des, listing, prefix);
    DiffMember(des, listing, prefix, c, ops[k]);
    if des != [] {
      n := des[0].username;
      DesiredPresent(des, listing, prefix, c, k, des[0]);
      DesiredForEach(des, des[0]);
    } else if exists n :: n in c && !HasPrefix(n, prefix) {
      n :| n in c && !HasPrefix(n, prefix);
      SelectionByName(des, listing, prefix, c, ops[..k], n);
    } else {
      n := ops[k + 1].username;
      DiffMember(des, listing, prefix, c, ops[k + 1]);
      UntouchedByOthers(c, ops[..k], n);
    }
  }

  // A delete of the diff, run in order, hits the node's last user exactly when nothing
  // is desired, every user is managed, and it is the very last operation.
  lemma DeleteOfLastUser(des: seq<DesiredUser>, listing: seq<RemoteUser>, prefix: string, c: Config, k: nat)
    requires DistinctDesired(des) && Lists(listing, c)
    requires k < |DiffOf(des, listing, prefix)| && DiffOf(des, listing, prefix)[k].Delete?
    ensures var ops := DiffOf(des, listing, prefix);
            EffectAll(c, ops[..k]).Keys == {ops[k].username} <==>
            des == [] && (forall n :: n in c ==> HasPrefix(n, prefix)) && k == |ops| - 1
  {
    var ops := DiffOf(des, listing, prefix);
    var now, target := EffectAll(c, ops[..k]), ops[k].username;
    if des != [] || (exists n :: n in c && !HasPrefix(n, prefix)) || k < |ops| - 1 {
      var n := OthersPresent(des, listing, prefix, c, k);
      assert n in now.Keys && n !in {target};
    } else {
      DiffDistinct(des, listing, prefix);
      StillFits(des, listing, prefix, c, ops[..k], ops[k]);
      forall n
        ensures n in now ==> n == target
      {
        SelectionByName(des, listing, prefix, c, ops[..k], n);
        OpNamesOfDiff(des, listing, prefix, c, n);
        if n in OpNames(ops) && n != target {
          var i :| 0 <= i < |ops| && ops[i].username == n;
          assert ops[..k][i].username == n;
        }
      }
    }
  }
}
