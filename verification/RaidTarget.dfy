/** The target RAID configuration and its validation. */
module RaidTarget {
  import opened Wrappers

  datatype Size = Max | GiB(size: nat)

  type Hint = string

  datatype LogicalDisk = LogicalDisk(
    controller: string, volumeName: Option<string>, isRootVolume: bool, size: Size, raidLevel: string,
    physicalDisks: Option<seq<Hint>>)

  const SUPPORTED_LEVELS := {"0", "1", "1+0", "5", "6"}

  predicate DistinctVolumes(disks: seq<LogicalDisk>) {
    forall i, j :: 0 <= i < j < |disks| && disks[i].volumeName.Some? ==> disks[i].volumeName != disks[j].volumeName
  }

  /** What the accepted configurations look like. */
  predicate Acceptable(disks: seq<LogicalDisk>, skipping: bool, deviceCount: nat) {
    && |disks| in {1, 2}
    && (forall d :: d in disks ==> d.controller == "software")
    && DistinctVolumes(disks)
    && (skipping ==> forall d :: d in disks ==> d.volumeName.Some?)
    && (forall i, j :: 0 <= i < j < |disks| && disks[i].isRootVolume ==> !disks[j].isRootVolume)
    && (forall d :: d in disks && d.physicalDisks.Some? ==> |d.physicalDisks.value| >= 2)
    && disks[0].raidLevel == "1"
    && (|disks| == 2 ==>
          && !(disks[0].size.Max? && disks[1].size.Max?)
          && disks[1].raidLevel in {"0", "1", "1+0", "5", "6"}
          && (disks[1].raidLevel == "5" ==> deviceCount >= 3)
          && (disks[1].raidLevel == "6" ==> deviceCount >= 4))
  }

  predicate DiskOk(disk: LogicalDisk, skipping: bool) {
    && disk.controller == "software"
    && (skipping ==> disk.volumeName.Some?)
    && (disk.physicalDisks.Some? ==> |disk.physicalDisks.value| >= 2)
  }

  /** The rules for each disk by itself and against the disks before it. */
  predicate DisksOk(disks: seq<LogicalDisk>, skipping: bool) {
    disks != [] ==>
      var last := |disks| - 1;
      && DisksOk(disks[..last], skipping)
      && DiskOk(disks[last], skipping)
      && (disks[last].volumeName.Some? ==> !HasVolume(disks[..last], disks[last].volumeName.value))
      && (disks[last].isRootVolume ==> !HasRoot(disks[..last]))
  }

  predicate HasVolume(disks: seq<LogicalDisk>, v: string) {
    exists k :: 0 <= k < |disks| && disks[k].volumeName == Some(v)
  }

  predicate HasRoot(disks: seq<LogicalDisk>) {
    exists k :: 0 <= k < |disks| && disks[k].isRootVolume
  }

  lemma {:induction false} DisksOkMeaning(disks: seq<LogicalDisk>, skipping: bool)
    ensures DisksOk(disks, skipping) <==>
      && (forall d :: d in disks ==> DiskOk(d, skipping))
      && DistinctVolumes(disks)
      && (forall i, j :: 0 <= i < j < |disks| && disks[i].isRootVolume ==> !disks[j].isRootVolume)
  {
    if disks != [] {
      var last := |disks| - 1;
      var before := disks[..last];
      DisksOkMeaning(before, skipping);
      assert forall d :: d in disks <==> d in before || d == disks[last];
      assert forall i :: 0 <= i < last ==> before[i] == disks[i];
    }
  }

  /** Checks every rule and collects the violations; only an empty list of logical disks is
      reported at once.  Returns whether the configuration is accepted. */
  method ValidateConfiguration(disks: seq<LogicalDisk>, skipping: bool, deviceCount: nat) returns (ok: bool)
    ensures ok <==> Acceptable(disks, skipping, deviceCount)
  {
    if disks == [] { return false; }
    var raidErrors := if |disks| !in {1, 2} then 1 else 0;
    var volumeNames: seq<string> := [];
    var rootVolumeSelected := false;
    for i := 0 to |disks|
      invariant raidErrors >= 0 && (raidErrors == 0 <==> |disks| in {1, 2} && DisksOk(disks[..i], skipping))
      invariant forall v :: v in volumeNames <==> HasVolume(disks[..i], v)
      invariant rootVolumeSelected <==> HasRoot(disks[..i])
    {
      var errors: nat;
      errors, volumeNames, rootVolumeSelected := CheckDisk(disks[..i], disks[i], skipping, volumeNames,
        rootVolumeSelected);
      raidErrors := raidErrors + errors;
      assert disks[..i + 1] == disks[..i] + [disks[i]] && disks[..i + 1][..i] == disks[..i];
    }
    assert disks[..|disks|] == disks;
    DisksOkMeaning(disks, skipping);
    if disks[0].raidLevel != "1" { raidErrors := raidErrors + 1; }
    if |disks| == 2 {
      if disks[0].size.Max? && disks[1].size.Max? { raidErrors := raidErrors + 1; }
      if disks[1].raidLevel !in SUPPORTED_LEVELS { raidErrors := raidErrors + 1; }
      if disks[1].raidLevel == "5" && deviceCount < 3 { raidErrors := raidErrors + 1; }
      if disks[1].raidLevel == "6" && deviceCount < 4 { raidErrors := raidErrors + 1; }
    }
    return raidErrors == 0;
  }

  method CheckDisk(ghost before: seq<LogicalDisk>, disk: LogicalDisk, skipping: bool, names: seq<string>, root: bool)
    returns (errors: nat, volumeNames: seq<string>, rootVolumeSelected: bool)
    requires forall v :: v in names <==> HasVolume(before, v)
    requires root <==> HasRoot(before)
    ensures errors == 0 <==>
      DiskOk(disk, skipping) && (disk.volumeName.Some? ==> !HasVolume(before, disk.volumeName.value)) &&
      (disk.isRootVolume ==> !HasRoot(before))
    ensures forall v :: v in volumeNames <==> HasVolume(before + [disk], v)
    ensures rootVolumeSelected <==> HasRoot(before + [disk])
  {
    errors, volumeNames, rootVolumeSelected := 0, names, root;
    if disk.controller != "software" { errors := errors + 1; }
    if disk.volumeName.None? {
      if skipping { errors := errors + 1; }
    } else if disk.volumeName.value in names {
      errors := errors + 1;
    } else {
      volumeNames := names + [disk.volumeName.value];
    }
    if disk.isRootVolume {
      if root { errors := errors + 1; } else { rootVolumeSelected := true; }
    }
    if disk.physicalDisks.Some? && |disk.physicalDisks.value| < 2 { errors := errors + 1; }
    assert forall k :: 0 <= k < |before| ==> (before + [disk])[k] == before[k];
    assert (before + [disk])[|before|] == disk;
  }
}
