// internal/telemtsync/diff.go in plain terms: what the operations leave of every user,
// in which order they come, and when exactly the guard stops them.
module DiffMeaning {
  import opened Options
  import opened Users
  import opened Configs
  import opened Diff
  import opened DiffTheory
  import opened DiffProgress

  // ---- Every user after the operations ----

  // Created with the desired secret, expiration and limit; kept with its secret and, if
  // that is the same moment, with its own expiration text; enabled either way; removed if
  // undesired with the prefix; else as before.
  lemma DiffOutcome(des: seq<DesiredUser>, listing: seq<RemoteUser>, prefix: string, c: Config, n: string)
    requires DistinctDesired(des) && Lists(listing, c)
    ensures At(EffectAll(c, DiffOf(des, listing, prefix)), n) ==
            match DesiredFor(des, n)
            case None => if prefix <= n then None else At(c, n)
            case Some(d) =>
              if n !in c then Some(Record(d.secret, true, d.expiration, d.maxTcpConns))
              else
                var same := ExpirationEquals(d.expiration, c[n].expiration);
                Some(Record(c[n].secret, true, if same then c[n].expiration else d.expiration, d.maxTcpConns))
  {
    DiffConverges(des, listing, prefix, c);
    match (DesiredFor(des, n), At(c, n))
    case (Some(d), Some(r)) => PatchedByNeed(d, n, r);
    case _ =>
  }

  lemma PatchedByNeed(d: DesiredUser, n: string, r: Record)
    ensures Patched(r, Changes(d, View(n, r))) ==
            Record(r.secret, true, if ExpirationEquals(d.expiration, r.expiration) then r.expiration else d.expiration,
                   d.maxTcpConns)
  {
  }

  // A patch speaks of exactly the fields that differ.
  lemma PatchSaysWhatDiffers(d: DesiredUser, r: RemoteUser)
    ensures var f := Changes(d, r);
            && (f.setExpiration <==> MeaningOf(d.expiration) != MeaningOf(r.expiration))
            && (f.setMaxTcpConns <==> d.maxTcpConns != r.maxTcpConns)
            && (f.enabled == if r.enabled then None else Some(true))
            && f.expiration == (if f.setExpiration then d.expiration else None)
            && f.maxTcpConns == (if f.setMaxTcpConns then d.maxTcpConns else None)
  {
    ExpirationEqualsIsMeaning(d.expiration, r.expiration);
  }

  // Users without the configured prefix, or "sub_" if none is, are never deleted; listed
  // ones with it are exactly when they are not desired.
  lemma DeletesByPrefix(des: seq<DesiredUser>, listing: seq<RemoteUser>, managedPrefix: string, n: string)
    requires DistinctDesired(des)
    ensures Delete(n) in DiffOf(des, listing, EffectivePrefix(managedPrefix)) <==>
            && (exists i :: 0 <= i < |listing| && listing[i].username == n)
            && (forall i :: 0 <= i < |des| ==> des[i].username != n)
            && (var p := if managedPrefix == "" then "sub_" else managedPrefix; |p| <= |n| && n[..|p|] == p)
  {
    var prefix, index := EffectivePrefix(managedPrefix), RemoteIndex(listing);
    CreateMember(des, index, Delete(n));
    PatchMember(des, index, Delete(n));
    DeleteMember(listing, DesiredNames(des), prefix, Delete(n));
    IndexNames(listing, n);
  }

  // A name reported twice counts as its last report says.
  lemma {:induction false} LastReportCounts(remote: seq<RemoteUser>, i: nat)
    requires i < |remote| && forall j :: i < j < |remote| ==> remote[j].username != remote[i].username
    ensures remote[i].username in RemoteIndex(remote) && RemoteIndex(remote)[remote[i].username] == remote[i]
  {
    if i < |remote| - 1 {
      LastReportCounts(remote[..|remote| - 1], i);
    }
  }

  // ---- Their order ----

  predicate DesiredBefore(des: seq<DesiredUser>, x: string, y: string) {
    exists i, j :: 0 <= i < j < |des| && des[i].username == x && des[j].username == y
  }

  predicate ListedBefore(remote: seq<RemoteUser>, x: string, y: string) {
    exists i, j :: 0 <= i < j < |remote| && remote[i].username == x && remote[j].username == y
  }

  lemma BeforeLast(des: seq<DesiredUser>, x: string)
    requires des != [] && x in DesiredNames(des[..|des| - 1])
    ensures DesiredBefore(des, x, des[|des| - 1].username)
  {
    var i :| 0 <= i < |des| - 1 && des[i].username == x;
  }

  lemma BeforeInFront(des: seq<DesiredUser>, x: string, y: string)
    requires des != [] && DesiredBefore(des[..|des| - 1], x, y)
    ensures DesiredBefore(des, x, y)
  {
    var front := des[..|des| - 1];
    var i, j :| 0 <= i < j < |front| && front[i].username == x && front[j].username == y;
    assert des[i].username == x && des[j].username == y;
  }

  lemma {:induction false} CreatesOrder(des: seq<DesiredUser>, index: map<string, RemoteUser>, i: nat, j: nat)
    requires DistinctDesired(des) && i < j < |Creates(des, index)|
    ensures DesiredBefore(des, Creates(des, index)[i].username, Creates(des, index)[j].username)
  {
    var front := des[..|des| - 1];
    var before := Creates(front, index);
    if j < |before| {
      CreatesOrder(front, index, i, j);
      BeforeInFront(des, before[i].username, before[j].username);
    } else {
      CreateMember(front, index, before[i]);
      BeforeLast(des, before[i].username);
    }
  }

  lemma {:induction false} PatchesOrder(des: seq<DesiredUser>, index: map<string, RemoteUser>, i: nat, j: nat)
    requires DistinctDesired(des) && i < j < |Patches(des, index)|
    ensures DesiredBefore(des, Patches(des, index)[i].username, Patches(des, index)[j].username)
  {
    var front := des[..|des| - 1];
    var before := Patches(front, index);
    if j < |before| {
      PatchesOrder(front, index, i, j);
      BeforeInFront(des, before[i].username, before[j].username);
    } else {
      PatchMember(front, index, before[i]);
      BeforeLast(des, before[i].username);
    }
  }

  lemma {:induction false} ListedOrder(remote: seq<RemoteUser>, desired: set<string>, prefix: string, i: nat, j: nat)
    requires i < j < |Deletes(remote, desired, prefix)|
    ensures var deletes := Deletes(remote, desired, prefix);
            ListedBefore(remote, deletes[i].username, deletes[j].username)
  {
    var front := remote[..|remote| - 1];
    var before := Deletes(front, desired, prefix);
    var x, y := Deletes(remote, desired, prefix)[i].username, Deletes(remote, desired, prefix)[j].username;
    if j < |before| {
      ListedOrder(front, desired, prefix, i, j);
      var a, b :| 0 <= a < b < |front| && front[a].username == x && front[b].username == y;
      assert remote[a].username == x && remote[b].username == y;
    } else {
      assert before[i] in before;
      DeleteMember(front, desired, prefix, before[i]);
      IndexNames(front, x);
      var a :| 0 <= a < |front| && front[a].username == x;
      assert remote[a].username == x && remote[|remote| - 1].username == y;
    }
  }

  // Creates come before patches and these before deletes; creates and patches follow the
  // order of the desired users, deletes that of the listing.
  lemma DiffIsOrdered(des: seq<DesiredUser>, listing: seq<RemoteUser>, prefix: string, i: nat, j: nat)
    requires DistinctDesired(des) && i < j < |DiffOf(des, listing, prefix)|
    ensures var p, q := DiffOf(des, listing, prefix)[i], DiffOf(des, listing, prefix)[j];
            && (q.Create? ==> p.Create?) && (p.Delete? ==> q.Delete?)
            && ((p.Create? && q.Create?) || (p.Patch? && q.Patch?) ==> DesiredBefore(des, p.username, q.username))
            && (p.Delete? && q.Delete? ==> ListedBefore(listing, p.username, q.username))
  {
    var index := RemoteIndex(listing);
    var a, b := |Creates(des, index)|, |Creates(des, index)| + |Patches(des, index)|;
    KindAt(des, listing, prefix, i);
    KindAt(des, listing, prefix, j);
    if j < a {
      CreatesOrder(des, index, i, j);
    } else if a <= i && j < b {
      PatchesOrder(des, index, i - a, j - a);
    } else if i >= b {
      ListedOrder(listing, DesiredNames(des), prefix, i - b, j - b);
    }
  }

  lemma KindAt(des: seq<DesiredUser>, listing: seq<RemoteUser>, prefix: string, i: nat)
    requires DistinctDesired(des) && i < |DiffOf(des, listing, prefix)|
    ensures var op, index := DiffOf(des, listing, prefix)[i], RemoteIndex(listing);
            var a, b := |Creates(des, index)|, |Creates(des, index)| + |Patches(des, index)|;
            if i < a then op.Create? && op == Creates(des, index)[i]
            else if i < b then op.Patch? && op == Patches(des, index)[i - a]
            else op.Delete? && op == Deletes(listing, DesiredNames(des), prefix)[i - b]
  {
    KindsOfLists(des, listing, prefix, DiffOf(des, listing, prefix)[i]);
  }

  lemma KindsOfLists(des: seq<DesiredUser>, listing: seq<RemoteUser>, prefix: string, op: SyncOp)
    requires DistinctDesired(des)
    ensures op in Creates(des, RemoteIndex(listing)) ==> op.Create?
    ensures op in Patches(des, RemoteIndex(listing)) ==> op.Patch?
    ensures op in Deletes(listing, DesiredNames(des), prefix) ==> op.Delete?
  {
    CreateMember(des, RemoteIndex(listing), op);
    PatchMember(des, RemoteIndex(listing), op);
    DeleteMember(listing, DesiredNames(des), prefix, op);
  }

  // ---- The guard ----

  // For d deletes out of t managed users, with the options' own defaults.
  predicate TooMany(d: nat, t: nat, opts: MassDeleteOptions) {
    && d >= (if opts.minDeletes == 0 then 5 else opts.minDeletes)
    && ShareExceeds(d, t, if opts.fractionThreshold == 0.0 then 0.5 else opts.fractionThreshold)
  }

  predicate ShareExceeds(d: nat, t: nat, share: real) {
    if t == 0 then share < 0.0 else d as real > share * t as real
  }

  lemma FractionExceeds(d: nat, t: nat, share: real)
    ensures Fraction(d, t) > share <==> ShareExceeds(d, t, share)
  {
    if t > 0 {
      var q := Fraction(d, t);
      assert q * t as real == d as real;
      CrossLess(share, q, t as real);
      CrossLess(q, share, t as real);
    }
  }

  lemma CrossLess(x: real, y: real, f: real)
    requires f > 0.0
    ensures x < y ==> x * f < y * f
    ensures x <= y ==> x * f <= y * f
  {
  }

  // The guard stops a diff exactly when it deletes too many of the managed users listed.
  lemma GuardExactly(des: seq<DesiredUser>, listing: seq<RemoteUser>, opts: MassDeleteOptions, c: Config)
    requires DistinctDesired(des) && Lists(listing, c)
    ensures var prefix := EffectivePrefix(opts.managedPrefix);
            MassDelete(DiffOf(des, listing, prefix), listing, opts) <==>
            TooMany(|Doomed(des, prefix, c)|, |Managed(prefix, c)|, opts)
  {
    var prefix := EffectivePrefix(opts.managedPrefix);
    SafetyCounts(des, listing, prefix, c);
    GuardCounts(DiffOf(des, listing, prefix), listing, opts);
  }

  lemma GuardCounts(ops: seq<SyncOp>, listing: seq<RemoteUser>, opts: MassDeleteOptions)
    ensures MassDelete(ops, listing, opts) <==>
            TooMany(CountOps(ops, OpDelete), CountManaged(listing, EffectivePrefix(opts.managedPrefix)), opts)
  {
    var d, t := CountOps(ops, OpDelete), CountManaged(listing, EffectivePrefix(opts.managedPrefix));
    FractionExceeds(d, t, if opts.fractionThreshold == 0.0 then 0.5 else opts.fractionThreshold);
  }

  lemma InPlainTerms(des: seq<DesiredUser>, prefix: string, c: Config, n: string)
    ensures n in Managed(prefix, c) <==> n in c && |prefix| <= |n| && n[..|prefix|] == prefix
    ensures n in Doomed(des, prefix, c) <==>
            n in Managed(prefix, c) && forall i :: 0 <= i < |des| ==> des[i].username != n
  {
  }

  // With the defaults: five users or more, and more than half of the managed ones.
  lemma DefaultGuard(des: seq<DesiredUser>, listing: seq<RemoteUser>, opts: MassDeleteOptions, c: Config)
    requires DistinctDesired(des) && Lists(listing, c)
    requires opts.minDeletes == 0 && opts.fractionThreshold == 0.0
    ensures var prefix := EffectivePrefix(opts.managedPrefix);
            var doomed, managed := Doomed(des, prefix, c), Managed(prefix, c);
            MassDelete(DiffOf(des, listing, prefix), listing, opts) <==> |doomed| >= 5 && 2 * |doomed| > |managed|
  {
    var prefix := EffectivePrefix(opts.managedPrefix);
    GuardExactly(des, listing, opts, c);
    SubsetSize(Doomed(des, prefix, c), Managed(prefix, c));
  }
}
