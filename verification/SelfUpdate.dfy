// internal/selfupdate: the decision to update, the binary swap and the rollback, on
// a disk whose every operation may fail and that may crash after any step.
module SelfUpdate {
  import opened Options
  import opened Checksums

  type Bytes = seq<bv8>

  // The binary, its backup, the temporary file of the latest swap, and those that earlier
  // ones left behind.
  datatype Disk = Disk(path: Option<Bytes>, bak: Option<Bytes>, tmp: Option<Bytes>, litter: seq<Bytes>)

  // Which steps of a swap succeed; written is how much a failed write leaves.
  datatype Luck = Luck(create: bool, write: bool, written: nat, close: bool, chmod: bool,
                       backup: bool, install: bool, restore: bool, remove: bool)

  datatype SwapError = TempFailed | WriteFailed | CloseFailed | ChmodFailed | InstallFailed

  // A temporary file gets a name of its own: one still there stays.
  function Create(d: Disk): Disk {
    d.(tmp := Some([]), litter := d.litter + if d.tmp.Some? then [d.tmp.value] else [])
  }

  // rename is atomic; it fails on a missing source.
  function BackUp(d: Disk, works: bool): Disk {
    if works && d.path.Some? then d.(path := None, bak := d.path) else d
  }

  function Install(d: Disk, works: bool): Disk {
    if works && d.tmp.Some? then d.(path := d.tmp, tmp := None) else d
  }

  function Restore(d: Disk, works: bool): Disk {
    if works && d.bak.Some? then d.(path := d.bak, bak := None) else d
  }

  function Remove(d: Disk, works: bool): Disk {
    if works then d.(tmp := None) else d
  }

  function Written(data: Bytes, l: Luck): Bytes {
    if l.write then data else if l.written <= |data| then data[..l.written] else data
  }

  // The disk after each step of a swap, the first being the disk before it. A crash
  // leaves one of these.
  function SwapTrail(d: Disk, data: Bytes, l: Luck): seq<Disk> {
    if !l.create then [d]
    else
      var d1 := Create(d);
      var d2 := d1.(tmp := Some(Written(data, l)));
      if !l.write || !l.close || !l.chmod then [d, d1, d2, Remove(d2, l.remove)]
      else
        var d3 := BackUp(d2, l.backup);
        var d4 := Install(d3, l.install);
        if l.install then [d, d1, d2, d3, d4, Remove(d4, l.remove)]
        else
          var d5 := Restore(d4, l.restore);
          [d, d1, d2, d3, d4, d5, Remove(d5, l.remove)]
  }

  function SwapResult(l: Luck): Option<SwapError> {
    if !l.create then Some(TempFailed)
    else if !l.write then Some(WriteFailed)
    else if !l.close then Some(CloseFailed)
    else if !l.chmod then Some(ChmodFailed)
    else if !l.install then Some(InstallFailed)
    else None
  }

  function Last<T>(s: seq<T>): T
    requires s != []
  {
    s[|s| - 1]
  }

  const CHECKSUMS := "checksums.txt"

  datatype Release = Release(version: string, assets: seq<Asset>)

  // What an update is told and what the network gives it, each download failing or not.
  datatype Offer = Offer(current: string, goos: string, goarch: string,
                         release: Option<Release>, sums: Option<string>, binary: Option<Bytes>)

  predicate Has(assets: seq<Asset>, name: string) {
    exists i :: 0 <= i < |assets| && assets[i].name == name
  }

  predicate UpToDate(o: Offer) { o.release.Some? && o.release.value.version == o.current }

  // The hash of the binary is the one recorded for it.
  predicate Verified(o: Offer, sha: Bytes -> string) {
    && o.sums.Some? && o.binary.Some?
    && var table, name := Recorded(Lines(o.sums.value)), AssetName(o.goos, o.goarch);
       name in table && table[name] == sha(o.binary.value)
  }

  predicate Installs(o: Offer, sha: Bytes -> string) {
    && o.release.Some? && !UpToDate(o)
    && Has(o.release.value.assets, AssetName(o.goos, o.goarch)) && Has(o.release.value.assets, CHECKSUMS)
    && Verified(o, sha)
  }

  // checksums.txt was had and records the hash of these bytes for the wanted binary.
  predicate OnRecord(o: Offer, b: Bytes, sha: Bytes -> string) {
    && o.sums.Some?
    && var table, name := Recorded(Lines(o.sums.value)), "telemux_" + o.goos + "_" + o.goarch;
       name in table && table[name] == sha(b)
  }

  // An update installs exactly another release that has both files, with a binary of the
  // recorded hash.
  lemma InstallsExactly(o: Offer, sha: Bytes -> string)
    ensures Installs(o, sha) <==>
            && o.release.Some? && o.release.value.version != o.current
            && Has(o.release.value.assets, "telemux_" + o.goos + "_" + o.goarch)
            && Has(o.release.value.assets, "checksums.txt")
            && o.binary.Some? && OnRecord(o, o.binary.value, sha)
  {
  }

  function UpdateTrail(d: Disk, o: Offer, sha: Bytes -> string, l: Luck): seq<Disk> {
    if Installs(o, sha) then SwapTrail(d, o.binary.value, l) else [d]
  }

  class FileSystem {
    var disk: Disk
    ghost var trail: seq<Disk>  // every state since the operation began

    // One change of the disk.
    method Set(d: Disk)
      modifies this
      ensures disk == d && trail == old(trail) + [d]
    {
      disk, trail := d, trail + [d];
    }

    // swapBinary: temporary file, write, close, chmod, backup, install, and the backup
    // put back if installing fails. luck is the outcome the disk chose.
    method SwapBinary(data: Bytes) returns (err: Option<SwapError>, ghost luck: Luck)
      requires trail == [disk]
      modifies this
      ensures trail == SwapTrail(old(disk), data, luck) && disk == Last(trail) && err == SwapResult(luck)
    {
      var l: Luck := *;
      luck := l;
      if !l.create {
        return Some(TempFailed), luck;
      }
      Set(Create(disk));
      Set(disk.(tmp := Some(Written(data, l))));
      if !l.write {
        Set(Remove(disk, l.remove));
        return Some(WriteFailed), luck;
      }
      if !l.close {
        Set(Remove(disk, l.remove));
        return Some(CloseFailed), luck;
      }
      if !l.chmod {
        Set(Remove(disk, l.remove));
        return Some(ChmodFailed), luck;
      }
      Set(BackUp(disk, l.backup));
      Set(Install(disk, l.install));
      if !l.install {
        Set(Restore(disk, l.restore));
        Set(Remove(disk, l.remove));
        return Some(InstallFailed), luck;
      }
      Set(Remove(disk, l.remove));
      err := None;
    }

    // Rollback: an error without a backup, else one rename.
    method Rollback() returns (ok: bool, ghost works: bool)
      requires trail == [disk]
      modifies this
      ensures disk == Restore(old(disk), works) && ok == (works && old(disk).bak.Some?)
      ensures trail == [old(disk)] || trail == [old(disk), disk]
      ensures disk == if ok then old(disk).(path := old(disk).bak, bak := None) else old(disk)
    {
      var w: bool := *;
      works := w;
      if disk.bak.None? {
        return false, works;
      }
      Set(Restore(disk, w));
      ok := w;
    }

    // Update: the disk is touched only for a binary whose hash is on record.
    method Update(o: Offer, sha: Bytes -> string) returns (ok: bool, ghost luck: Luck)
      requires trail == [disk]
      modifies this
      ensures trail == UpdateTrail(old(disk), o, sha, luck) && disk == Last(trail)
      ensures ok <==> UpToDate(o) || (Installs(o, sha) && SwapResult(luck) == None)
      ensures trail != [old(disk)] ==> o.binary.Some? && OnRecord(o, o.binary.value, sha)
    {
      luck := Luck(false, false, 0, false, false, false, false, false, false);
      if o.release.None? {
        return false, luck;
      }
      var release := o.release.value;
      if release.version == o.current {
        return true, luck;
      }
      var wantName := AssetName(o.goos, o.goarch);
      var binAsset := PickAsset(release.assets, wantName);
      if binAsset.None? {
        return false, luck;
      }
      var sumsAsset := PickAsset(release.assets, CHECKSUMS);
      if sumsAsset.None? || o.sums.None? {
        return false, luck;
      }
      var table := ParseChecksums(o.sums.value);
      if wantName !in table || o.binary.None? {
        return false, luck;
      }
      if sha(o.binary.value) != table[wantName] {
        return false, luck;
      }
      var err;
      err, luck := SwapBinary(o.binary.value);
      return err.None?, luck;
    }
  }

  // ---- What holds after any history ----

  // One operation, run to its end or to a crash after one of its steps.
  datatype Action =
    | Update(offer: Offer, luck: Luck, crash: Option<nat>)
    | RollBack(works: bool)

  function Perform(d: Disk, a: Action, sha: Bytes -> string): Disk {
    match a
    case Update(offer, luck, crash) =>
      var trail := UpdateTrail(d, offer, sha, luck);
      if crash.Some? && crash.value < |trail| then trail[crash.value] else Last(trail)
    case RollBack(works) => Restore(d, works)
  }

  function PerformAll(d: Disk, actions: seq<Action>, sha: Bytes -> string): Disk {
    if actions == [] then d
    else Perform(PerformAll(d, actions[..|actions| - 1], sha), actions[|actions| - 1], sha)
  }

  // The action is an update that was offered this binary, with its hash on record.
  predicate Brings(a: Action, b: Bytes, sha: Bytes -> string) {
    a.Update? && a.offer.binary == Some(b) && OnRecord(a.offer, b, sha)
  }

  // The binary was there at first or passed the check of some update, complete.
  predicate Genuine(b: Bytes, first: Disk, actions: seq<Action>, sha: Bytes -> string) {
    first.path == Some(b) || first.bak == Some(b) || exists i :: 0 <= i < |actions| && Brings(actions[i], b, sha)
  }

  // Path and backup hold genuine binaries, and not both are missing.
  predicate Safe(d: Disk, first: Disk, actions: seq<Action>, sha: Bytes -> string) {
    && (d.path.Some? ==> Genuine(d.path.value, first, actions, sha))
    && (d.bak.Some? ==> Genuine(d.bak.value, first, actions, sha))
    && (d.path.Some? || d.bak.Some?)
  }

  // Path and backup hold what was there before, or the new binary; one of them is there.
  predicate Keeps(now: Disk, was: Disk, data: Bytes) {
    && (now.path.None? || now.path == was.path || now.path == was.bak || now.path == Some(data))
    && (now.bak.None? || now.bak == was.bak || now.bak == was.path)
    && (now.path.Some? || now.bak.Some?)
  }

  lemma SwapKeeps(d: Disk, data: Bytes, l: Luck)
    requires d.path.Some? || d.bak.Some?
    ensures forall i :: 0 <= i < |SwapTrail(d, data, l)| ==> Keeps(SwapTrail(d, data, l)[i], d, data)
  {
  }

  // Every state an update passes through is safe.
  lemma UpdateIsSafe(d: Disk, o: Offer, l: Luck, first: Disk, actions: seq<Action>, sha: Bytes -> string)
    requires Safe(d, first, actions, sha)
    requires Installs(o, sha) ==> Genuine(o.binary.value, first, actions, sha)
    ensures var trail := UpdateTrail(d, o, sha, l);
            forall i :: 0 <= i < |trail| ==> Safe(trail[i], first, actions, sha)
  {
    if Installs(o, sha) {
      SwapKeeps(d, o.binary.value, l);
    }
  }

  lemma SafeSnoc(d: Disk, first: Disk, actions: seq<Action>, a: Action, sha: Bytes -> string)
    requires Safe(d, first, actions, sha)
    ensures Safe(d, first, actions + [a], sha)
  {
    forall b | Genuine(b, first, actions, sha)
      ensures Genuine(b, first, actions + [a], sha)
    {
      if i :| 0 <= i < |actions| && Brings(actions[i], b, sha) {
        assert Brings((actions + [a])[i], b, sha);
      }
    }
  }

  // After any sequence of updates and rollbacks, with any step failing and any crash,
  // path and backup only hold complete binaries that were there at first or passed the
  // hash check of some update, and at least one of the two is there.
  lemma {:induction false} AlwaysSafe(d: Disk, actions: seq<Action>, sha: Bytes -> string)
    requires d.path.Some? || d.bak.Some?
    ensures Safe(PerformAll(d, actions, sha), d, actions, sha)
    ensures var now := PerformAll(d, actions, sha);
            && (now.path.Some? || now.bak.Some?)
            && forall b :: now.path == Some(b) || now.bak == Some(b) ==> Genuine(b, d, actions, sha)
  {
    if actions != [] {
      var front, a := actions[..|actions| - 1], actions[|actions| - 1];
      var before := PerformAll(d, front, sha);
      AlwaysSafe(d, front, sha);
      SafeSnoc(before, d, front, a, sha);
      assert front + [a] == actions;
      if a.Update? {
        if Installs(a.offer, sha) {
          InstallsExactly(a.offer, sha);
          assert Brings(actions[|actions| - 1], a.offer.binary.value, sha);
        }
        UpdateIsSafe(before, a.offer, a.luck, d, actions, sha);
      }
    }
  }

  // A swap installs the new binary, and says so, exactly when every step up to the last
  // rename works; the backup rename may fail.
  lemma SwapInstallsExactly(d: Disk, data: Bytes, l: Luck)
    requires d.path != Some(data) && d.bak != Some(data)
    ensures var all := l.create && l.write && l.close && l.chmod && l.install;
            (Last(SwapTrail(d, data, l)).path == Some(data) <==> all) && (SwapResult(l) == None <==> all)
  {
  }

  // A rollback after a successful swap brings the former binary back exactly when it
  // had been backed up, or an older backup held the same bytes, and the rename works.
  lemma RollbackRestores(d: Disk, data: Bytes, l: Luck, works: bool)
    requires d.path.Some? && SwapResult(l) == None && data != d.path.value
    ensures var swapped := Last(SwapTrail(d, data, l));
            && swapped.path == Some(data)
            && (Restore(swapped, works).path == d.path <==> works && (l.backup || d.bak == d.path))
  {
  }

  // A failed swap leaves the binary in place except in two cases: the backup rename
  // worked and putting it back did not, or it had failed and putting "back" installed
  // an older backup of other bytes.
  lemma FailedSwapKeepsBinary(d: Disk, data: Bytes, l: Luck)
    requires d.path.Some? && SwapResult(l).Some?
    ensures Last(SwapTrail(d, data, l)).path == d.path <==>
            !(SwapResult(l) == Some(InstallFailed)
              && if l.backup then !l.restore else l.restore && d.bak.Some? && d.bak != d.path)
  {
  }

  function Temporaries(d: Disk): nat { |d.litter| + if d.tmp.Some? then 1 else 0 }

  // Updates that crashed or could not remove their temporary file.
  function Untidy(actions: seq<Action>): nat {
    if actions == [] then 0
    else
      var a := actions[|actions| - 1];
      Untidy(actions[..|actions| - 1]) + if a.Update? && (a.crash.Some? || !a.luck.remove) then 1 else 0
  }

  lemma SwapTemporaries(d: Disk, data: Bytes, l: Luck)
    ensures var trail := SwapTrail(d, data, l);
            && (forall i :: 0 <= i < |trail| ==> Temporaries(trail[i]) <= Temporaries(d) + 1)
            && (l.remove ==> Temporaries(Last(trail)) <= Temporaries(d))
  {
  }

  lemma ActionTemporaries(d: Disk, a: Action, sha: Bytes -> string)
    ensures Temporaries(Perform(d, a, sha)) <= Temporaries(d) + Untidy([a])
  {
    assert [a][..0] == [];
    if a.Update? && Installs(a.offer, sha) {
      SwapTemporaries(d, a.offer.binary.value, a.luck);
    }
  }

  // Only those leave one, and one each.
  lemma {:induction false} TemporariesLeft(d: Disk, actions: seq<Action>, sha: Bytes -> string)
    ensures Temporaries(PerformAll(d, actions, sha)) <= Temporaries(d) + Untidy(actions)
  {
    if actions != [] {
      var front, a := actions[..|actions| - 1], actions[|actions| - 1];
      TemporariesLeft(d, front, sha);
      ActionTemporaries(PerformAll(d, front, sha), a, sha);
      assert [a][..0] == [];
    }
  }

  // Whatever a crash interrupts, the next update whose swap succeeds installs its binary.
  lemma UpdateAfterAnything(d: Disk, actions: seq<Action>, o: Offer, l: Luck, sha: Bytes -> string)
    requires d.path.Some? || d.bak.Some?
    requires Installs(o, sha) && SwapResult(l) == None
    ensures var all := actions + [Update(o, l, None)];
            PerformAll(d, all, sha).path == o.binary && Safe(PerformAll(d, all, sha), d, all, sha)
  {
    var all := actions + [Update(o, l, None)];
    AlwaysSafe(d, all, sha);
    assert all[..|actions|] == actions;
  }
}
