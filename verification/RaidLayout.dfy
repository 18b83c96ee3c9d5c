/** Creating the arrays: choosing devices, laying out the partitions on freshly labelled disks,
    and naming the partitions each array is made of.  The last two are separate loops. */
module RaidLayout {
  import opened Wrappers
  import opened RaidTarget
  import Names
  import Reconcile

  /** A logical disk with the devices chosen for it. */
  datatype Placed = Placed(disk: LogicalDisk, devices: seq<string>)

  predicate Distinct<T(==)>(s: seq<T>) {
    forall i, j :: 0 <= i < j < |s| ==> s[i] != s[j]
  }

  // ----- Choosing the devices -----

  function FirstNotIn(candidates: seq<string>, taken: seq<string>): (x: Option<string>)
    ensures x.Some? ==> x.value in candidates && x.value !in taken
    ensures x.None? <==> forall c :: c in candidates ==> c in taken
  {
    if candidates == [] then None
    else if candidates[0] !in taken then Some(candidates[0])
    else FirstNotIn(candidates[1..], taken)
  }

  /** Each hint takes the first candidate that no earlier hint of the same disk took. */
  function Greedy(find: Hint -> seq<string>, hints: seq<Hint>): (m: Option<seq<string>>)
    ensures m.Some? ==> |m.value| == |hints| && Distinct(m.value)
    ensures m.Some? ==> forall k :: 0 <= k < |hints| ==> m.value[k] in find(hints[k])
  {
    if hints == [] then Some([]) else
      var before := Greedy(find, hints[..|hints| - 1]);
      if before.None? then None else
        var next := FirstNotIn(find(hints[|hints| - 1]), before.value);
        if next.None? then None else Some(before.value + [next.value])
  }

  function DevicesFor(find: Hint -> seq<string>, blockDevices: seq<string>, disk: LogicalDisk): (m: Option<seq<string>>)
    ensures Distinct(blockDevices) && m.Some? ==> Distinct(m.value)
  {
    if disk.physicalDisks.GetOr([]) == [] then Some(blockDevices) else Greedy(find, disk.physicalDisks.value)
  }

  /** The first candidate that is not taken. */
  predicate FirstFree(candidates: seq<string>, taken: seq<string>, x: string) {
    exists k :: 0 <= k < |candidates| && FreeAt(candidates, taken, x, k)
  }

  predicate FreeAt(candidates: seq<string>, taken: seq<string>, x: string, k: nat)
    requires k < |candidates|
  {
    candidates[k] == x && x !in taken && forall j :: 0 <= j < k ==> candidates[j] in taken
  }

  lemma {:induction false} FirstNotInMeaning(candidates: seq<string>, taken: seq<string>)
    ensures var x := FirstNotIn(candidates, taken); x.Some? ==> FirstFree(candidates, taken, x.value)
  {
    if candidates != [] && candidates[0] in taken {
      FirstNotInMeaning(candidates[1..], taken);
      var x := FirstNotIn(candidates, taken);
      if x.Some? {
        var k :| 0 <= k < |candidates| - 1 && FreeAt(candidates[1..], taken, x.value, k);
        assert forall j :: 0 < j < k + 1 ==> candidates[j] == candidates[1..][j - 1];
        assert FreeAt(candidates, taken, x.value, k + 1);
      }
    } else if candidates != [] {
      assert FreeAt(candidates, taken, candidates[0], 0);
    }
  }

  ghost predicate ChosenFor(find: Hint -> seq<string>, hints: seq<Hint>, m: seq<string>) {
    |m| == |hints| && forall k :: 0 <= k < |hints| ==> FirstFree(find(hints[k]), m[..k], m[k])
  }

  ghost predicate StuckAt(find: Hint -> seq<string>, hints: seq<Hint>, k: nat, taken: seq<string>) {
    k < |hints| && ChosenFor(find, hints[..k], taken) && forall c :: c in find(hints[k]) ==> c in taken
  }

  lemma {:induction false} GreedyStuck(find: Hint -> seq<string>, hints: seq<Hint>, k: nat)
    requires k <= |hints| && Greedy(find, hints[..k]).None?
    ensures Greedy(find, hints).None?
    decreases |hints|
  {
    if k == |hints| {
      assert hints[..k] == hints;
    } else {
      var before := hints[..|hints| - 1];
      assert before[..k] == hints[..k];
      GreedyStuck(find, before, k);
    }
  }

  lemma {:induction false} SameFirst(candidates: seq<string>, taken: seq<string>, x: string)
    requires FirstFree(candidates, taken, x)
    ensures FirstNotIn(candidates, taken) == Some(x)
  {
    FirstNotInMeaning(candidates, taken);
    var k :| 0 <= k < |candidates| && FreeAt(candidates, taken, x, k);
    assert candidates[k] in candidates;
    var y := FirstNotIn(candidates, taken).value;
    var l :| 0 <= l < |candidates| && FreeAt(candidates, taken, y, l);
  }

  lemma {:induction false} ChosenMore(find: Hint -> seq<string>, hints: seq<Hint>, m: seq<string>)
    requires |m| == |hints| > 0
    ensures var n := |hints| - 1;
            ChosenFor(find, hints, m) <==>
              ChosenFor(find, hints[..n], m[..n]) && FirstFree(find(hints[n]), m[..n], m[n])
  {
    var n := |hints| - 1;
    forall k | 0 <= k < n
      ensures FirstFree(find(hints[..n][k]), m[..n][..k], m[..n][k]) <==> FirstFree(find(hints[k]), m[..k], m[k])
    {
      assert m[..n][..k] == m[..k] && hints[..n][k] == hints[k] && m[..n][k] == m[k];
    }
    if ChosenFor(find, hints[..n], m[..n]) {
      forall k | 0 <= k < n ensures FirstFree(find(hints[k]), m[..k], m[k]) {
        assert FirstFree(find(hints[..n][k]), m[..n][..k], m[..n][k]);
      }
    }
  }

  lemma {:induction false} ChosenIsGreedy(find: Hint -> seq<string>, hints: seq<Hint>, m: seq<string>)
    requires ChosenFor(find, hints, m)
    ensures Greedy(find, hints) == Some(m)
  {
    if hints != [] {
      var n := |hints| - 1;
      ChosenMore(find, hints, m);
      ChosenIsGreedy(find, hints[..n], m[..n]);
      SameFirst(find(hints[n]), m[..n], m[n]);
      assert m == m[..n] + [m[n]];
    }
  }

  lemma {:induction false} GreedyIsChosen(find: Hint -> seq<string>, hints: seq<Hint>)
    ensures var m := Greedy(find, hints); m.Some? ==> ChosenFor(find, hints, m.value)
    ensures Greedy(find, hints).None? ==> exists k, taken :: StuckAt(find, hints, k, taken)
  {
    if hints != [] {
      var n := |hints| - 1;
      var before := Greedy(find, hints[..n]);
      GreedyIsChosen(find, hints[..n]);
      if before.None? {
        var k: nat, taken :| StuckAt(find, hints[..n], k, taken);
        assert hints[..n][..k] == hints[..k];
        assert StuckAt(find, hints, k, taken);
      } else if Greedy(find, hints).None? {
        assert StuckAt(find, hints, n, before.value);
      } else {
        var m := Greedy(find, hints).value;
        FirstNotInMeaning(find(hints[n]), before.value);
        assert m[..n] == before.value;
        ChosenMore(find, hints, m);
      }
    }
  }

  lemma {:induction false} StuckMeansNone(find: Hint -> seq<string>, hints: seq<Hint>, k: nat, taken: seq<string>)
    requires StuckAt(find, hints, k, taken)
    ensures Greedy(find, hints).None?
  {
    ChosenIsGreedy(find, hints[..k], taken);
    assert hints[..k + 1][..k] == hints[..k];
    GreedyStuck(find, hints, k + 1);
  }

  lemma {:induction false} GreedyMeaning(find: Hint -> seq<string>, hints: seq<Hint>)
    ensures var m := Greedy(find, hints); m.Some? ==> ChosenFor(find, hints, m.value)
    ensures Greedy(find, hints).None? <==> exists k, taken :: StuckAt(find, hints, k, taken)
  {
    GreedyIsChosen(find, hints);
    forall k: nat, taken | StuckAt(find, hints, k, taken) ensures Greedy(find, hints).None? {
      StuckMeansNone(find, hints, k, taken);
    }
  }

  /** A disk without hints spans all devices; otherwise each hint gets its first candidate that the hints before it
      have not taken, and there is no choice only if all candidates of some hint are taken by those before it. */
  lemma {:induction false} DevicesMeaning(find: Hint -> seq<string>, blockDevices: seq<string>, disk: LogicalDisk)
    ensures disk.physicalDisks.GetOr([]) == [] ==> DevicesFor(find, blockDevices, disk) == Some(blockDevices)
    ensures disk.physicalDisks.GetOr([]) != [] && DevicesFor(find, blockDevices, disk).Some? ==>
      ChosenFor(find, disk.physicalDisks.value, DevicesFor(find, blockDevices, disk).value)
    ensures DevicesFor(find, blockDevices, disk).None? <==>
      disk.physicalDisks.GetOr([]) != [] && exists k, taken :: StuckAt(find, disk.physicalDisks.value, k, taken)
  {
    if disk.physicalDisks.GetOr([]) != [] { GreedyMeaning(find, disk.physicalDisks.value); }
  }

  method MatchHints(find: Hint -> seq<string>, hints: seq<Hint>) returns (r: Option<seq<string>>)
    ensures r == Greedy(find, hints)
  {
    var matching := [];
    for k := 0 to |hints|
      invariant Greedy(find, hints[..k]) == Some(matching)
    {
      assert hints[..k + 1][..k] == hints[..k];
      var next := FirstNotIn(find(hints[k]), matching);
      if next.None? {
        GreedyStuck(find, hints, k + 1);
        return None;
      }
      matching := matching + [next.value];
    }
    assert hints[..|hints|] == hints;
    return Some(matching);
  }

  /** Every disk gets its devices, and the devices involved are collected in order, each once;
      or some disk cannot be served. */
  method GetBlockDevicesForRaid(find: Hint -> seq<string>, blockDevices: seq<string>, disks: seq<LogicalDisk>)
    returns (r: Option<(seq<string>, seq<Placed>)>)
    ensures r.None? <==> exists d :: d in disks && DevicesFor(find, blockDevices, d).None?
    ensures r.Some? ==>
      var (result, placed) := r.value;
      && |placed| == |disks|
      && (forall i :: 0 <= i < |disks| ==>
        placed[i].disk == disks[i] && DevicesFor(find, blockDevices, disks[i]) == Some(placed[i].devices))
      && (forall x :: x in result <==> exists i :: 0 <= i < |placed| && x in placed[i].devices)
      && Distinct(result)
  {
    var result: seq<string> := [];
    var placed: seq<Placed> := [];
    for i := 0 to |disks|
      invariant |placed| == i && Distinct(result)
      invariant forall k :: 0 <= k < i ==>
        placed[k].disk == disks[k] && DevicesFor(find, blockDevices, disks[k]) == Some(placed[k].devices)
      invariant forall x :: x in result <==> exists k :: 0 <= k < i && x in placed[k].devices
    {
      var matching: Option<seq<string>> := Some(blockDevices);
      if disks[i].physicalDisks.GetOr([]) != [] { matching := MatchHints(find, disks[i].physicalDisks.value); }
      assert disks[i] in disks && matching == DevicesFor(find, blockDevices, disks[i]);
      if matching.None? { return None; }
      result := Extend(result, matching.value);
      placed := placed + [Placed(disks[i], matching.value)];
    }
    return Some((result, placed));
  }

  /** The elements of the second list that are missing, appended one by one. */
  method Extend(result: seq<string>, matching: seq<string>) returns (r: seq<string>)
    requires Distinct(result)
    ensures Distinct(r) && forall x :: x in r <==> x in result || x in matching
  {
    r := result;
    for k := 0 to |matching|
      invariant Distinct(r) && forall x :: x in r <==> x in result || x in matching[..k]
    {
      assert matching[..k + 1] == matching[..k] + [matching[k]];
      if matching[k] !in r { r := r + [matching[k]]; }
    }
    assert matching[..|matching|] == matching;
  }

  // ----- The layout -----

  /** A position on a disk, in the unit that is handed to parted; the size of a sector is the disk's own. */
  datatype Pos = Sectors(n: nat, sectorSize: nat) | MiB(n: nat) | GiB(n: nat) | DiskEnd

  /** Bytes from the start of the disk; the end of the disk is `size`. */
  function Bytes(p: Pos, size: nat): nat {
    match p
    case Sectors(n, sectorSize) => n * sectorSize
    case MiB(n) => 0x10_0000 * n
    case GiB(n) => 0x4000_0000 * n
    case DiskEnd => size
  }

  const ESP_SIZE_MIB: nat := 550

  function CalculateRaidStart(bootMode: string, tableType: string, firstSector: nat, sectorSize: nat): Pos {
    if bootMode == "uefi" then MiB(ESP_SIZE_MIB + 1)
    else if tableType == "gpt" then MiB(8)
    else Sectors(firstSector, sectorSize)
  }

  /** The end of a partition; the first one on a disk ends at its size, not after it. */
  function PartitionEnd(size: Size, start: Pos): Pos {
    match size
    case Max => DiskEnd
    case GiB(n) => Pos.GiB(if start.GiB? then start.n + n else n)
  }

  /** One mkpart command, and the position in the list of the logical disk it is made for. */
  datatype Mkpart = Mkpart(device: string, start: Pos, end: Pos, volume: nat)

  function On(log: seq<Mkpart>, device: string): seq<Mkpart> {
    if log == [] then [] else
      On(log[..|log| - 1], device) + if log[|log| - 1].device == device then [log[|log| - 1]] else []
  }

  /** Where the next partition on a device starts. */
  function Cursor(placed: seq<Placed>, start: Pos, device: string): Pos {
    if placed == [] then start else
      var last := placed[|placed| - 1];
      var before := Cursor(placed[..|placed| - 1], start, device);
      if device in last.devices then PartitionEnd(last.disk.size, before) else before
  }

  /** The partitions a device is meant to get: one for each logical disk that uses it, in the
      order of the logical disks, each starting where the one before ended. */
  function Expected(placed: seq<Placed>, start: Pos, device: string): seq<Mkpart> {
    if placed == [] then [] else
      var earlier := placed[..|placed| - 1];
      var last := placed[|placed| - 1];
      Expected(earlier, start, device) +
      if device in last.devices then
        [Mkpart(device, Cursor(earlier, start, device), PartitionEnd(last.disk.size, Cursor(earlier, start, device)),
          |placed| - 1)]
      else []
  }

  predicate Started(placed: seq<Placed>, starts: map<string, Pos>) {
    forall i, d :: 0 <= i < |placed| && d in placed[i].devices ==> d in starts
  }

  lemma {:induction false} OnSnoc(log: seq<Mkpart>, c: Mkpart, d: string)
    ensures On(log + [c], d) == On(log, d) + if c.device == d then [c] else []
  {
    assert (log + [c])[..|log|] == log;
  }

  /** A device after the partitions of one logical disk were made on the devices `done`. */
  predicate LaidOut(disk: Placed, volume: nat, start: Pos, commands: seq<Mkpart>, done: seq<string>, next: Pos,
                    log: seq<Mkpart>, d: string)
  {
    var end := PartitionEnd(disk.disk.size, start);
    && next == (if d in done then end else start)
    && On(log, d) == On(commands, d) + if d in done then [Mkpart(d, start, end, volume)] else []
  }

  ghost predicate AllLaidOut(disk: Placed, volume: nat, starts: map<string, Pos>, commands: seq<Mkpart>,
                             done: seq<string>, partedStart: map<string, Pos>, log: seq<Mkpart>)
  {
    && partedStart.Keys == starts.Keys
    && forall d :: d in starts ==> LaidOut(disk, volume, starts[d], commands, done, partedStart[d], log, d)
  }

  /** One more partition, on another device. */
  lemma {:induction false} AllLaidOutMore(disk: Placed, volume: nat, starts: map<string, Pos>, commands: seq<Mkpart>,
      done: seq<string>, partedStart: map<string, Pos>, log: seq<Mkpart>, device: string)
    requires AllLaidOut(disk, volume, starts, commands, done, partedStart, log) && device in starts && device !in done
    ensures var end := PartitionEnd(disk.disk.size, partedStart[device]);
            AllLaidOut(disk, volume, starts, commands, done + [device], partedStart[device := end],
                       log + [Mkpart(device, partedStart[device], end, volume)])
  {
    var end := PartitionEnd(disk.disk.size, partedStart[device]);
    var command := Mkpart(device, partedStart[device], end, volume);
    assert LaidOut(disk, volume, starts[device], commands, done, partedStart[device], log, device);
    forall d | d in starts
      ensures LaidOut(disk, volume, starts[d], commands, done + [device], partedStart[device := end][d],
        log + [command], d)
    {
      assert LaidOut(disk, volume, starts[d], commands, done, partedStart[d], log, d);
      OnSnoc(log, command, d);
      assert On(commands, d) + [] == On(commands, d);
    }
  }

  /** The partitions of one logical disk. */
  method LayoutDisk(disk: Placed, volume: nat, starts: map<string, Pos>, commands: seq<Mkpart>, made: nat -> bool)
    returns (ok: bool, partedStart: map<string, Pos>, log: seq<Mkpart>)
    requires Distinct(disk.devices) && forall d :: d in disk.devices ==> d in starts
    ensures partedStart.Keys == starts.Keys
    ensures ok ==> AllLaidOut(disk, volume, starts, commands, disk.devices, partedStart, log)
  {
    partedStart, log := starts, commands;
    var devices := disk.devices;
    for j := 0 to |devices|
      invariant AllLaidOut(disk, volume, starts, commands, devices[..j], partedStart, log)
    {
      var device := devices[j];
      assert devices[..j + 1] == devices[..j] + [device] && device !in devices[..j];
      var start := partedStart[device];
      var end := PartitionEnd(disk.disk.size, start);
      ok := made(|log|);
      AllLaidOutMore(disk, volume, starts, commands, devices[..j], partedStart, log, device);
      log := log + [Mkpart(device, start, end, volume)];
      if !ok { return; }
      partedStart := partedStart[device := end];
    }
    assert devices[..|devices|] == devices;
    ok := true;
  }

  lemma {:induction false} ExpectedSnoc(placed: seq<Placed>, start: Pos, d: string, disk: Placed)
    ensures Cursor(placed + [disk], start, d) ==
      if d in disk.devices then PartitionEnd(disk.disk.size, Cursor(placed, start, d)) else Cursor(placed, start, d)
    ensures Expected(placed + [disk], start, d) ==
      Expected(placed, start, d) +
      if d in disk.devices
      then [Mkpart(d, Cursor(placed, start, d), PartitionEnd(disk.disk.size, Cursor(placed, start, d)), |placed|)]
      else []
  {
    assert (placed + [disk])[..|placed|] == placed;
  }

  /** The loop that makes the partitions; `made` tells whether a parted command succeeds. */
  method LayoutPartitions(placed: seq<Placed>, starts: map<string, Pos>, made: nat -> bool)
      returns (ok: bool, log: seq<Mkpart>)
    requires Started(placed, starts) && forall i :: 0 <= i < |placed| ==> Distinct(placed[i].devices)
    ensures ok ==> forall d :: d in starts ==> On(log, d) == Expected(placed, starts[d], d)
  {
    var partedStart := starts;
    log := [];
    for i := 0 to |placed|
      invariant partedStart.Keys == starts.Keys
      invariant forall d :: d in starts ==> partedStart[d] == Cursor(placed[..i], starts[d], d)
      invariant forall d :: d in starts ==> On(log, d) == Expected(placed[..i], starts[d], d)
    {
      ok, partedStart, log := LayoutDisk(placed[i], i, partedStart, log, made);
      if !ok { return; }
      assert placed[..i + 1] == placed[..i] + [placed[i]];
      forall d | d in starts { ExpectedSnoc(placed[..i], starts[d], d, placed[i]); }
    }
    assert placed[..|placed|] == placed;
    ok := true;
  }

  // ----- The reordering -----

  predicate IsMax(d: Placed) {
    d.disk.size.Max?
  }

  function Fixed(placed: seq<Placed>): seq<Placed> {
    if placed == [] then [] else
      var last := placed[|placed| - 1];
      Fixed(placed[..|placed| - 1]) + if IsMax(last) then [] else [last]
  }

  function LastMax(placed: seq<Placed>): seq<Placed> {
    if placed == [] then []
    else if IsMax(placed[|placed| - 1]) then [placed[|placed| - 1]]
    else LastMax(placed[..|placed| - 1])
  }

  /** Moves a MAX disk to the end; of several the last one is kept. */
  method Reorder(placed: seq<Placed>) returns (r: seq<Placed>)
    ensures r == Fixed(placed) + LastMax(placed)
  {
    r := [];
    var maxDisk: Option<Placed> := None;
    for i := 0 to |placed|
      invariant r == Fixed(placed[..i])
      invariant LastMax(placed[..i]) == match maxDisk case Some(d) => [d] case None => []
    {
      assert placed[..i + 1][..i] == placed[..i];
      if IsMax(placed[i]) { maxDisk := Some(placed[i]); } else { r := r + [placed[i]]; }
    }
    assert placed[..|placed|] == placed;
    if maxDisk.Some? { r := r + [maxDisk.value]; }
  }

  /** The elements of `s` at the places `at`, in order. */
  predicate Picks<T(==)>(sub: seq<T>, s: seq<T>, at: seq<nat>) {
    && |sub| == |at|
    && (forall k :: 0 <= k < |at| ==> at[k] < |s| && sub[k] == s[at[k]])
    && forall k, l :: 0 <= k < l < |at| ==> at[k] < at[l]
  }

  lemma {:induction false} PicksMore<T>(sub: seq<T>, s: seq<T>, at: seq<nat>, x: T)
    requires Picks(sub, s, at)
    ensures Picks(sub, s + [x], at) && Picks(sub + [x], s + [x], at + [|s|])
    ensures |s| !in at && forall i: nat :: i in at + [|s|] <==> i in at || i == |s|
  {
  }

  /** The reordering keeps the order of the disks of fixed size. */
  lemma {:induction false} FixedInOrder(placed: seq<Placed>) returns (at: seq<nat>)
    ensures Picks(Fixed(placed), placed, at)
    ensures forall i: nat :: i < |placed| ==> (i in at <==> !IsMax(placed[i]))
  {
    at := [];
    if placed != [] {
      var before, last := placed[..|placed| - 1], placed[|placed| - 1];
      at := FixedInOrder(before);
      PicksMore(Fixed(before), before, at, last);
      assert placed == before + [last] && Fixed(before) + [] == Fixed(before);
      if !IsMax(last) { at := at + [|before|]; }
    }
  }

  /** Of the MAX disks it keeps the last one. */
  lemma {:induction false} LastMaxIsLast(placed: seq<Placed>, i: nat)
    requires i < |placed| && IsMax(placed[i]) && forall j :: i < j < |placed| ==> !IsMax(placed[j])
    ensures LastMax(placed) == [placed[i]]
  {
    var n := |placed| - 1;
    if i < n {
      assert !IsMax(placed[n]);
      LastMaxIsLast(placed[..n], i);
    }
  }

  predicate AtMostOneMax(placed: seq<Placed>) {
    forall i, j :: 0 <= i < j < |placed| ==> !(IsMax(placed[i]) && IsMax(placed[j]))
  }

  lemma {:induction false} AllFixed(placed: seq<Placed>)
    ensures |Fixed(placed)| <= |placed|
    ensures |Fixed(placed)| == |placed| <==> forall i :: 0 <= i < |placed| ==> !IsMax(placed[i])
  {
    if placed != [] {
      var before, last := placed[..|placed| - 1], placed[|placed| - 1];
      AllFixed(before);
      assert forall i :: 0 <= i < |before| ==> placed[i] == before[i];
    }
  }

  lemma {:induction false} OneNotFixed(placed: seq<Placed>)
    ensures |placed| <= |Fixed(placed)| + 1 <==> AtMostOneMax(placed)
  {
    if placed != [] {
      var before, last := placed[..|placed| - 1], placed[|placed| - 1];
      AllFixed(before);
      OneNotFixed(before);
      assert forall i :: 0 <= i < |before| ==> placed[i] == before[i];
    }
  }

  /** The reordering keeps all logical disks exactly when at most one of them is MAX, and only
      the last one can then be MAX. */
  lemma {:induction false} ReorderKeepsAll(placed: seq<Placed>)
    ensures multiset(Fixed(placed) + LastMax(placed)) == multiset(placed) <==> AtMostOneMax(placed)
    ensures forall i :: 0 <= i < |Fixed(placed)| ==> !IsMax((Fixed(placed) + LastMax(placed))[i])
  {
    FixedAndMax(placed);
    OneNotFixed(placed);
    assert |multiset(placed)| == |placed| &&
      |multiset(Fixed(placed) + LastMax(placed))| == |Fixed(placed) + LastMax(placed)|;
  }

  /** Two MAX disks, of which the reordering keeps one.  Validation does not let such a target through. */
  lemma {:induction false} TwoMaxDisks()
    ensures var disk := LogicalDisk("software", Some("root"), true, Max, "1", None);
            var other := LogicalDisk("software", Some("data"), false, Max, "1", None);
            var placed := [Placed(disk, []), Placed(other, [])];
            && Fixed(placed) + LastMax(placed) == [placed[1]]
            && forall skipping, deviceCount :: !Acceptable([disk, other], skipping, deviceCount)
  {
    var disk := LogicalDisk("software", Some("root"), true, Max, "1", None);
    var other := LogicalDisk("software", Some("data"), false, Max, "1", None);
    var placed := [Placed(disk, []), Placed(other, [])];
    assert placed[..1] == [placed[0]] && [placed[0]][..0] == [];
    assert Fixed([placed[0]]) == Fixed([]) + [] == [];
    assert Fixed(placed) == Fixed([placed[0]]) + [];
  }

  lemma {:induction false} FixedAndMax(placed: seq<Placed>)
    ensures |Fixed(placed)| <= |placed| && (LastMax(placed) == [] <==> |Fixed(placed)| == |placed|) &&
      |LastMax(placed)| <= 1
    ensures |placed| <= |Fixed(placed)| + 1 ==> multiset(placed) == multiset(Fixed(placed)) + multiset(LastMax(placed))
    ensures forall i :: 0 <= i < |Fixed(placed)| ==> !IsMax(Fixed(placed)[i])
  {
    if placed != [] {
      var before, last := placed[..|placed| - 1], placed[|placed| - 1];
      FixedAndMax(before);
      var f, m := Fixed(before), LastMax(before);
      assert placed == before + [last];
      if IsMax(last) {
        assert Fixed(placed) == f + [] && LastMax(placed) == [] + [last];
        if |f| == |before| { Reconcile.Split(before, m, f, last); }
      } else {
        assert Fixed(placed) == f + [last] && LastMax(placed) == m + [];
        if |before| <= |f| + 1 { Reconcile.Split(before, f, m, last); }
      }
    }
  }

  function MaxDisks(disks: seq<LogicalDisk>): nat {
    if disks == [] then 0 else MaxDisks(disks[..|disks| - 1]) + if disks[|disks| - 1].size.Max? then 1 else 0
  }

  lemma {:induction false} MaxSnoc(disks: seq<LogicalDisk>, d: LogicalDisk)
    ensures MaxDisks(disks + [d]) == MaxDisks(disks) + if d.size.Max? then 1 else 0
  {
    assert (disks + [d])[..|disks|] == disks;
  }

  lemma {:induction false} RemainingMax(target: seq<LogicalDisk>, rm: seq<LogicalDisk>)
    ensures MaxDisks(Reconcile.Remaining(target, rm)) <= MaxDisks(target)
  {
    if target != [] {
      var before, last := target[..|target| - 1], target[|target| - 1];
      RemainingMax(before, rm);
      var r := Reconcile.Remaining(before, rm);
      MaxSnoc(r, last);
      assert r + [] == r;
    }
  }

  lemma {:induction false} FixedCount(placed: seq<Placed>, disks: seq<LogicalDisk>)
    requires |placed| == |disks| && forall i :: 0 <= i < |placed| ==> placed[i].disk == disks[i]
    ensures |Fixed(placed)| + MaxDisks(disks) == |placed|
  {
    if placed != [] { FixedCount(placed[..|placed| - 1], disks[..|disks| - 1]); }
  }

  /** No configuration that passes validation loses a logical disk in the reordering, whichever
      disks the reconciliation has taken out. */
  lemma {:induction false} AcceptedKeepsAll(target: seq<LogicalDisk>, rm: seq<LogicalDisk>, skipping: bool,
      deviceCount: nat, placed: seq<Placed>)
    requires Acceptable(target, skipping, deviceCount)
    requires var rest := Reconcile.Remaining(target, rm);
             |placed| == |rest| && forall i :: 0 <= i < |placed| ==> placed[i].disk == rest[i]
    ensures multiset(Fixed(placed) + LastMax(placed)) == multiset(placed)
  {
    var rest := Reconcile.Remaining(target, rm);
    RemainingMax(target, rm);
    FixedCount(placed, rest);
    OneNotFixed(placed);
    AcceptedMax(target, skipping, deviceCount);
    ReorderKeepsAll(placed);
  }

  lemma {:induction false} AcceptedMax(target: seq<LogicalDisk>, skipping: bool, deviceCount: nat)
    requires Acceptable(target, skipping, deviceCount)
    ensures MaxDisks(target) <= 1
  {
    assert MaxDisks(target[..0]) == 0;
    if |target| == 2 {
      assert target[..1][..0] == [];
      assert MaxDisks(target[..1]) == if target[0].size.Max? then 1 else 0;
    }
  }

  // ----- What the layout looks like -----

  /** Only the last logical disk may be MAX, and the sizes are positive. */
  predicate Ordered(placed: seq<Placed>) {
    && (forall i :: 0 <= i < |placed| - 1 ==> !IsMax(placed[i]))
    && (forall i :: 0 <= i < |placed| && !IsMax(placed[i]) ==> placed[i].disk.size.size > 0)
  }

  /** A position in sectors or MiB, where the first partition of a disk starts. */
  predicate FirstStart(start: Pos) {
    start.Sectors? || start.MiB?
  }

  /** Below the first GiB. */
  predicate EarlyStart(start: Pos) {
    FirstStart(start) && Bytes(start, 0) < 0x4000_0000
  }

  /** The reserved offset is early, unless it is the first sector of the disk and that lies beyond the
      first GiB. */
  lemma {:induction false} RaidStartIsEarly(bootMode: string, tableType: string, firstSector: nat, sectorSize: nat)
    ensures FirstStart(CalculateRaidStart(bootMode, tableType, firstSector, sectorSize))
    ensures Bytes(CalculateRaidStart(bootMode, tableType, firstSector, sectorSize), 0) ==
      if bootMode == "uefi" then 577_765_376 else if tableType == "gpt" then 8_388_608 else firstSector * sectorSize
    ensures EarlyStart(CalculateRaidStart(bootMode, tableType, firstSector, sectorSize)) <==>
      bootMode == "uefi" || tableType == "gpt" || firstSector * sectorSize < 0x4000_0000
  {
  }

  /** The sizes of the logical disks that use a device, in order. */
  function SizesOn(placed: seq<Placed>, device: string): seq<Size> {
    if placed == [] then [] else
      var last := placed[|placed| - 1];
      SizesOn(placed[..|placed| - 1], device) + if device in last.devices then [last.disk.size] else []
  }

  /** The sum of the sizes other than MAX. */
  function TotalGiB(sizes: seq<Size>): nat {
    if sizes == [] then 0 else
      TotalGiB(sizes[..|sizes| - 1]) + match sizes[|sizes| - 1] case GiB(n) => n case Max => 0
  }

  /** A partition starts where the sizes before it add up to, the first one at the reserved offset, and ends where
      the sizes up to its own add up to, or at the end of the disk. */
  predicate Measured(p: Mkpart, start: Pos, sizes: seq<Size>, k: nat)
    requires k < |sizes|
  {
    && p.start == (if k == 0 then start else Pos.GiB(TotalGiB(sizes[..k])))
    && p.end == (if sizes[k].Max? then DiskEnd else Pos.GiB(TotalGiB(sizes[..k + 1])))
  }

  ghost predicate AllMeasured(parts: seq<Mkpart>, start: Pos, sizes: seq<Size>) {
    |parts| == |sizes| && forall k :: 0 <= k < |parts| ==> Measured(parts[k], start, sizes, k)
  }

  lemma {:induction false} MeasuredMore(parts: seq<Mkpart>, start: Pos, sizes: seq<Size>, p: Mkpart, size: Size)
    requires AllMeasured(parts, start, sizes) && Measured(p, start, sizes + [size], |sizes|)
    ensures AllMeasured(parts + [p], start, sizes + [size])
  {
    forall k | 0 <= k < |parts| ensures Measured((parts + [p])[k], start, sizes + [size], k) {
      assert (sizes + [size])[..k] == sizes[..k] && (sizes + [size])[..k + 1] == sizes[..k + 1];
    }
  }

  lemma {:induction false} NextMeasured(start: Pos, sizes: seq<Size>, next: Pos, p: Mkpart, size: Size)
    requires FirstStart(start) && next == (if sizes == [] then start else Pos.GiB(TotalGiB(sizes)))
    requires p.start == next && p.end == PartitionEnd(size, next)
    ensures Measured(p, start, sizes + [size], |sizes|)
  {
    var all := sizes + [size];
    assert all[..|sizes|] == sizes && all[..|sizes| + 1] == all;
    assert TotalGiB([]) == 0;
  }

  lemma {:induction false} CursorIsTotal(placed: seq<Placed>, start: Pos, device: string)
    requires FirstStart(start) && forall i :: 0 <= i < |placed| ==> !IsMax(placed[i])
    ensures var sizes := SizesOn(placed, device);
            Cursor(placed, start, device) == if sizes == [] then start else Pos.GiB(TotalGiB(sizes))
  {
    if placed != [] {
      var earlier, last := placed[..|placed| - 1], placed[|placed| - 1];
      CursorIsTotal(earlier, start, device);
      if device in last.devices {
        var c := Cursor(earlier, start, device);
        var p := Mkpart(device, c, PartitionEnd(last.disk.size, c), 0);
        NextMeasured(start, SizesOn(earlier, device), c, p, last.disk.size);
        assert SizesOn(placed, device)[..|SizesOn(earlier, device)| + 1] == SizesOn(placed, device);
      } else {
        assert SizesOn(earlier, device) + [] == SizesOn(earlier, device);
      }
    }
  }

  /** The layout measures what was asked for: on every device each partition but the first has the size of its
      logical disk, and the ends are the sums of the sizes. */
  lemma {:induction false} LayoutMeasures(placed: seq<Placed>, start: Pos, device: string)
    requires FirstStart(start) && forall i :: 0 <= i < |placed| - 1 ==> !IsMax(placed[i])
    ensures AllMeasured(Expected(placed, start, device), start, SizesOn(placed, device))
  {
    if placed != [] {
      var earlier, last := placed[..|placed| - 1], placed[|placed| - 1];
      LayoutMeasures(earlier, start, device);
      var parts, sizes := Expected(earlier, start, device), SizesOn(earlier, device);
      if device in last.devices {
        CursorIsTotal(earlier, start, device);
        var c := Cursor(earlier, start, device);
        var p := Mkpart(device, c, PartitionEnd(last.disk.size, c), |earlier|);
        NextMeasured(start, sizes, c, p, last.disk.size);
        MeasuredMore(parts, start, sizes, p, last.disk.size);
      } else {
        assert parts + [] == parts && sizes + [] == sizes;
      }
    }
  }

  /** The sizes are those of the logical disks that use the device. */
  lemma {:induction false} SizesAreOwners(placed: seq<Placed>, device: string)
    ensures |SizesOn(placed, device)| == |OwnersOn(placed, device)|
    ensures forall k :: 0 <= k < |OwnersOn(placed, device)| ==>
      OwnersOn(placed, device)[k] < |placed| &&
      SizesOn(placed, device)[k] == placed[OwnersOn(placed, device)[k]].disk.size
  {
    if placed != [] { SizesAreOwners(placed[..|placed| - 1], device); }
  }

  /** The size of the first partition on a device. */
  function FirstSize(placed: seq<Placed>, device: string): Option<Size> {
    if placed == [] then None else
      var last, earlier := placed[|placed| - 1], FirstSize(placed[..|placed| - 1], device);
      if earlier.Some? then earlier else if device in last.devices then Some(last.disk.size) else None
  }

  /** The first partition, which ends at its size and not after it, is larger than what is reserved. */
  predicate FirstFits(size: Option<Size>, start: Pos) {
    size.None? || size.value.Max? || Bytes(start, 0) < Bytes(Pos.GiB(size.value.size), 0)
  }

  /** Per disk: the first partition starts at the reserved offset, each next one starts where
      the one before ends, none is empty, and nothing follows one that runs to the disk's end. */
  ghost predicate WellLaidOut(parts: seq<Mkpart>, start: Pos) {
    && (parts != [] ==> parts[0].start == start)
    && (forall k :: 0 <= k < |parts| - 1 ==> parts[k + 1].start == parts[k].end && !parts[k].end.DiskEnd?)
    && (forall k :: 0 <= k < |parts| ==> NotEmpty(parts[k]))
  }

  predicate NotEmpty(p: Mkpart) {
    !p.start.DiskEnd? && (p.end.DiskEnd? || Bytes(p.start, 0) < Bytes(p.end, 0))
  }

  /** The layout of a device is sound exactly when its first partition fits, as it does from an early start. */
  lemma {:induction false} LayoutIsSound(placed: seq<Placed>, start: Pos, device: string)
    requires Ordered(placed) && FirstStart(start)
    ensures WellLaidOut(Expected(placed, start, device), start) <==> FirstFits(FirstSize(placed, device), start)
    ensures EarlyStart(start) ==> FirstFits(FirstSize(placed, device), start)
  {
    LayoutShape(placed, start, device);
    SizePositive(placed, device);
  }

  lemma {:induction false} SizePositive(placed: seq<Placed>, device: string)
    requires Ordered(placed)
    ensures var size := FirstSize(placed, device); size.Some? && !size.value.Max? ==> size.value.size > 0
  {
    if placed != [] { SizePositive(placed[..|placed| - 1], device); }
  }

  /** Appending a partition that starts where the last one ends. */
  lemma {:induction false} OneMorePart(parts: seq<Mkpart>, start: Pos, p: Mkpart)
    requires parts != [] && p.start == parts[|parts| - 1].end && NotEmpty(p)
    ensures WellLaidOut(parts + [p], start) <==> WellLaidOut(parts, start)
  {
    var more := parts + [p];
    assert forall k :: 0 <= k < |parts| ==> more[k] == parts[k];
    if WellLaidOut(more, start) {
      assert forall k :: 0 <= k < |parts| ==> NotEmpty(more[k]);
      assert forall k :: 0 <= k < |parts| - 1 ==> more[k + 1].start == more[k].end;
    }
  }

  /** The partitions of a device, where the next one starts, and the size of the first one. */
  ghost predicate Shape(parts: seq<Mkpart>, next: Pos, size: Option<Size>, start: Pos, lastIsMax: bool) {
    && (WellLaidOut(parts, start) <==> FirstFits(size, start))
    && (parts == [] <==> size.None?)
    && next == (if parts == [] then start else parts[|parts| - 1].end)
    && (parts != [] ==> (next.GiB? && next.n > 0) || (next.DiskEnd? && lastIsMax))
  }

  lemma {:induction false} ShapeMore(parts: seq<Mkpart>, next: Pos, size: Option<Size>, start: Pos, last: Size,
      p: Mkpart)
    requires FirstStart(start) && Shape(parts, next, size, start, false) && (last.GiB? ==> last.size > 0)
    requires p.start == next && p.end == PartitionEnd(last, next)
    ensures Shape(parts + [p], p.end, if size.Some? then size else Some(last), start, last.Max?)
  {
    if parts == [] { OnlyPart(p, start, last); } else { OneMorePart(parts, start, p); }
  }

  lemma {:induction false} LayoutShape(placed: seq<Placed>, start: Pos, device: string)
    requires Ordered(placed) && FirstStart(start)
    ensures Shape(Expected(placed, start, device), Cursor(placed, start, device), FirstSize(placed, device), start,
                  placed != [] && IsMax(placed[|placed| - 1]))
  {
    if placed != [] {
      var earlier, last := placed[..|placed| - 1], placed[|placed| - 1];
      LayoutShape(earlier, start, device);
      var parts, c := Expected(earlier, start, device), Cursor(earlier, start, device);
      if device in last.devices {
        ShapeMore(parts, c, FirstSize(earlier, device), start, last.disk.size,
                  Mkpart(device, c, PartitionEnd(last.disk.size, c), |earlier|));
      } else {
        assert parts + [] == parts;
      }
    }
  }

  lemma {:induction false} OnlyPart(p: Mkpart, start: Pos, size: Size)
    requires FirstStart(start) && p.start == start && p.end == PartitionEnd(size, start)
    ensures WellLaidOut([] + [p], start) <==> FirstFits(Some(size), start)
  {
    assert ([] + [p])[0] == p;
    assert NotEmpty(p) <==> FirstFits(Some(size), start);
  }

  /** The partitions of one device do not overlap. */
  lemma {:induction false} NoOverlap(parts: seq<Mkpart>, start: Pos, k: nat, l: nat)
    requires WellLaidOut(parts, start) && k < l < |parts|
    ensures Bytes(parts[k].end, 0) <= Bytes(parts[l].start, 0)
    decreases l
  {
    if k + 1 < l {
      NoOverlap(parts, start, k, l - 1);
      assert NotEmpty(parts[l - 1]);
    }
    assert parts[l - 1 + 1].start == parts[l - 1].end;
  }

  // ----- Naming the component partitions -----

  /** The logical disks that use a device, by position. */
  function OwnersOn(placed: seq<Placed>, device: string): seq<nat> {
    if placed == [] then [] else
      OwnersOn(placed[..|placed| - 1], device) + if device in placed[|placed| - 1].devices then [|placed| - 1] else []
  }

  function ComponentName(device: string, number: nat): string {
    device + (if Names.Contains(device, "nvme") then "p" else "") + Names.Decimal(number)
  }

  function Index(indices: map<string, nat>, device: string): nat {
    if device in indices then indices[device] else 0
  }

  const RAID_PARTITION: nat := 1

  /** The component names of one array; `indices` counts the partitions used on each device. */
  method CreateRaidDevice(disk: Placed, indices0: map<string, nat>)
      returns (components: seq<string>, indices: map<string, nat>)
    requires Distinct(disk.devices)
    ensures |components| == |disk.devices|
    ensures forall j :: 0 <= j < |components| ==>
      components[j] == ComponentName(disk.devices[j], Index(indices0, disk.devices[j]) + 1)
    ensures forall d :: Index(indices, d) == Index(indices0, d) + if d in disk.devices then 1 else 0
  {
    components, indices := [], indices0;
    var devices := disk.devices;
    for j := 0 to |devices|
      invariant |components| == j
      invariant forall k :: 0 <= k < j ==> components[k] == ComponentName(devices[k], Index(indices0, devices[k]) + 1)
      invariant forall d :: Index(indices, d) == Index(indices0, d) + if d in devices[..j] then 1 else 0
    {
      var device := devices[j];
      assert devices[..j + 1] == devices[..j] + [device] && device !in devices[..j];
      var delimiter := if Names.Contains(device, "nvme") then "p" else "";
      var indexOnDevice := Index(indices, device);
      components := components + [device + delimiter + Names.Decimal(indexOnDevice + RAID_PARTITION)];
      indices := indices[device := indexOnDevice + 1];
    }
    assert devices[..|devices|] == devices;
  }

  /** The number of the partition that array `i` takes on a device. */
  function NumberOn(placed: seq<Placed>, i: nat, device: string): nat
    requires i <= |placed|
  {
    |OwnersOn(placed[..i], device)| + 1
  }

  method CreateRaidDevices(placed: seq<Placed>) returns (arrays: seq<seq<string>>)
    requires forall i :: 0 <= i < |placed| ==> Distinct(placed[i].devices)
    ensures |arrays| == |placed|
    ensures forall i :: 0 <= i < |placed| ==> |arrays[i]| == |placed[i].devices|
    ensures forall i, j :: 0 <= i < |placed| && 0 <= j < |placed[i].devices| ==>
      arrays[i][j] == ComponentName(placed[i].devices[j], NumberOn(placed, i, placed[i].devices[j]))
  {
    arrays := [];
    var indices: map<string, nat> := map[];
    for i := 0 to |placed|
      invariant |arrays| == i
      invariant forall d :: Index(indices, d) == |OwnersOn(placed[..i], d)|
      invariant forall k :: 0 <= k < i ==> |arrays[k]| == |placed[k].devices|
      invariant forall k, j :: 0 <= k < i && 0 <= j < |placed[k].devices| ==>
                  arrays[k][j] == ComponentName(placed[k].devices[j], NumberOn(placed, k, placed[k].devices[j]))
    {
      var components: seq<string>;
      components, indices := CreateRaidDevice(placed[i], indices);
      arrays := arrays + [components];
      assert placed[..i + 1][..i] == placed[..i];
    }
  }

  // ----- The two loops agree -----

  lemma {:induction false} VolumesAreOwners(placed: seq<Placed>, start: Pos, device: string)
    ensures |Expected(placed, start, device)| == |OwnersOn(placed, device)|
    ensures forall k :: 0 <= k < |OwnersOn(placed, device)| ==>
      Expected(placed, start, device)[k].volume == OwnersOn(placed, device)[k]
  {
    if placed != [] { VolumesAreOwners(placed[..|placed| - 1], start, device); }
  }

  lemma {:induction false} OwnerNumber(placed: seq<Placed>, i: nat, device: string)
    requires i < |placed| && device in placed[i].devices
    ensures NumberOn(placed, i, device) <= |OwnersOn(placed, device)| &&
      OwnersOn(placed, device)[NumberOn(placed, i, device) - 1] == i
  {
    if i == |placed| - 1 {
    } else {
      var earlier := placed[..|placed| - 1];
      assert earlier[..i] == placed[..i];
      OwnerNumber(earlier, i, device);
    }
  }

  lemma {:induction false} NumberOwner(placed: seq<Placed>, device: string, k: nat)
    requires k < |OwnersOn(placed, device)|
    ensures var i := OwnersOn(placed, device)[k];
            i < |placed| && device in placed[i].devices && NumberOn(placed, i, device) == k + 1
  {
    var earlier := placed[..|placed| - 1];
    if k < |OwnersOn(earlier, device)| {
      NumberOwner(earlier, device, k);
      var i := OwnersOn(earlier, device)[k];
      assert earlier[..i] == placed[..i];
    }
  }

  /** On a freshly labelled disk the partition that array i names is the one that the layout
      made for logical disk i; and every partition that the layout made is named by the array
      of the logical disk it was made for. */
  lemma {:induction false} LoopsAgree(placed: seq<Placed>, start: Pos, device: string)
    ensures var parts := Expected(placed, start, device);
            && (forall i :: 0 <= i < |placed| && device in placed[i].devices ==>
                  1 <= NumberOn(placed, i, device) <= |parts| && parts[NumberOn(placed, i, device) - 1].volume == i)
            && (forall k :: 0 <= k < |parts| ==>
                  parts[k].volume < |placed| && device in placed[parts[k].volume].devices &&
                    NumberOn(placed, parts[k].volume, device) == k + 1)
  {
    VolumesAreOwners(placed, start, device);
    forall i: nat | i < |placed| && device in placed[i].devices
      ensures NumberOn(placed, i, device) <= |OwnersOn(placed, device)| &&
        OwnersOn(placed, device)[NumberOn(placed, i, device) - 1] == i
    {
      OwnerNumber(placed, i, device);
    }
    forall k: nat | k < |OwnersOn(placed, device)|
      ensures var i := OwnersOn(placed, device)[k];
              i < |placed| && device in placed[i].devices && NumberOn(placed, i, device) == k + 1
    {
      NumberOwner(placed, device, k);
    }
  }

  /** The devices for which the component names are the kernel's names of the partitions. */
  predicate KernelNamed(device: string) {
    !Names.Contains(device, Names.ISCSI_PREFIX) && (Names.Contains(device, "nvme") <==> Names.EndsInDigit(device))
  }

  /** The path of a partition that was made on a device for logical disk i. */
  ghost predicate IsMade(log: seq<Mkpart>, device: string, path: string, i: nat) {
    exists k :: 0 <= k < |On(log, device)| && On(log, device)[k].volume == i &&
      path == Names.PartitionIndexToPath(device, k + 1)
  }

  /** What array i takes on a device: it is named by the number of a partition that was made there for logical
      disk i; and it is that partition if the device is named as the kernel does it, and otherwise none of the
      partitions that were made there. */
  ghost predicate ComponentOk(log: seq<Mkpart>, device: string, component: string, i: nat) {
    && (exists k :: 0 <= k < |On(log, device)| && On(log, device)[k].volume == i &&
          component == ComponentName(device, k + 1))
    && (if KernelNamed(device) then IsMade(log, device, component, i)
        else forall v: nat :: !IsMade(log, device, component, v))
  }

  ghost predicate ComponentsOk(log: seq<Mkpart>, placed: seq<Placed>, arrays: seq<seq<string>>) {
    && |arrays| == |placed|
    && (forall i :: 0 <= i < |placed| ==> |arrays[i]| == |placed[i].devices|)
    && forall i, j :: 0 <= i < |placed| && 0 <= j < |placed[i].devices| ==>
         ComponentOk(log, placed[i].devices[j], arrays[i][j], i)
  }

  ghost predicate PositiveSizes(disks: seq<Placed>) {
    forall i :: 0 <= i < |disks| && !IsMax(disks[i]) ==> disks[i].disk.size.size > 0
  }

  predicate InTwoPlaces(arrays: seq<seq<string>>, i: nat, j: nat, k: nat, l: nat) {
    i < |arrays| && j < |arrays[i]| && k < |arrays| && l < |arrays[k]| && arrays[i][j] == arrays[k][l] &&
      (i, j) != (k, l)
  }

  /** No component is in two arrays, or twice in one. */
  ghost predicate AllDistinct(arrays: seq<seq<string>>) {
    forall i: nat, j: nat, k: nat, l: nat :: !InTwoPlaces(arrays, i, j, k, l)
  }

  ghost predicate NoneConfusable(disks: seq<Placed>) {
    forall i, j, d, e :: 0 <= i < |disks| && 0 <= j < |disks| && d in disks[i].devices && e in disks[j].devices ==>
      !Confusable(d, e)
  }

  /** The whole creation.  Every component of an array is the partition made for its logical disk, on devices
      that are named as the kernel does it, and none of the partitions made on its device otherwise; and no
      partition that was made is left over.  The layout of every device is sound.  No component is in two places,
      unless there are more than ten logical disks. */
  method CreateOnFreshDisks(disks: seq<Placed>, starts: map<string, Pos>, made: nat -> bool)
    returns (ok: bool, log: seq<Mkpart>, arrays: seq<seq<string>>)
    requires Started(disks, starts) && forall i :: 0 <= i < |disks| ==> Distinct(disks[i].devices)
    ensures ok ==> ComponentsOk(log, Fixed(disks) + LastMax(disks), arrays)
    ensures ok ==> forall d, k :: d in starts && 0 <= k < |On(log, d)| ==>
      On(log, d)[k].volume < |arrays| && ComponentName(d, k + 1) in arrays[On(log, d)[k].volume]
    ensures ok ==> forall d, k :: d in starts && KernelNamed(d) && 0 <= k < |On(log, d)| ==>
      On(log, d)[k].volume < |arrays| && Names.PartitionIndexToPath(d, k + 1) in arrays[On(log, d)[k].volume]
    ensures ok ==> forall d :: d in starts && FirstStart(starts[d]) ==>
      AllMeasured(On(log, d), starts[d], SizesOn(Fixed(disks) + LastMax(disks), d))
    ensures ok && PositiveSizes(disks) ==>
      forall d :: d in starts && EarlyStart(starts[d]) ==> WellLaidOut(On(log, d), starts[d])
    ensures ok && (|disks| <= 10 || NoneConfusable(disks)) ==> AllDistinct(arrays)
  {
    var placed := Reorder(disks);
    ReorderedOk(disks, starts);
    arrays := [];
    ok, log := LayoutPartitions(placed, starts, made);
    if !ok { return; }
    arrays := CreateRaidDevices(placed);
    assert forall d :: d in starts ==> On(log, d) == Expected(placed, starts[d], d);
    forall i: nat, j: nat | i < |placed| && j < |placed[i].devices|
      ensures ComponentOk(log, placed[i].devices[j], arrays[i][j], i)
    {
      ComponentWasMade(placed, starts, log, i, j);
    }
    forall d, k: nat | d in starts && k < |On(log, d)|
      ensures On(log, d)[k].volume < |arrays| && ComponentName(d, k + 1) in arrays[On(log, d)[k].volume]
      ensures KernelNamed(d) ==> ComponentName(d, k + 1) == Names.PartitionIndexToPath(d, k + 1)
    {
      PartitionIsUsed(placed, starts, log, d, k, arrays);
      ComponentNameIsPath(d, k + 1);
    }
    FreshMeasures(disks, starts, log);
    if PositiveSizes(disks) { FreshLayouts(disks, starts, log); }
    if |disks| <= 10 || NoneConfusable(disks) { FreshComponents(disks, arrays); }
  }

  lemma {:induction false} FreshMeasures(disks: seq<Placed>, starts: map<string, Pos>, log: seq<Mkpart>)
    requires forall d :: d in starts ==> On(log, d) == Expected(Fixed(disks) + LastMax(disks), starts[d], d)
    ensures forall d :: d in starts && FirstStart(starts[d]) ==>
      AllMeasured(On(log, d), starts[d], SizesOn(Fixed(disks) + LastMax(disks), d))
  {
    FixedAndMax(disks);
    forall d | d in starts && FirstStart(starts[d])
      ensures AllMeasured(On(log, d), starts[d], SizesOn(Fixed(disks) + LastMax(disks), d))
    {
      LayoutMeasures(Fixed(disks) + LastMax(disks), starts[d], d);
    }
  }

  lemma {:induction false} FreshLayouts(disks: seq<Placed>, starts: map<string, Pos>, log: seq<Mkpart>)
    requires PositiveSizes(disks)
    requires forall d :: d in starts ==> On(log, d) == Expected(Fixed(disks) + LastMax(disks), starts[d], d)
    ensures forall d :: d in starts && EarlyStart(starts[d]) ==> WellLaidOut(On(log, d), starts[d])
  {
    var placed := Fixed(disks) + LastMax(disks);
    FixedAndMax(disks);
    forall i | 0 <= i < |placed| && !IsMax(placed[i]) ensures placed[i].disk.size.size > 0 {
      ReorderedAmong(disks, placed[i]);
    }
    assert Ordered(placed);
    forall d | d in starts && EarlyStart(starts[d]) ensures WellLaidOut(On(log, d), starts[d]) {
      LayoutIsSound(placed, starts[d], d);
    }
  }

  lemma {:induction false} FreshComponents(disks: seq<Placed>, arrays: seq<seq<string>>)
    requires |disks| <= 10 || NoneConfusable(disks)
    requires forall i :: 0 <= i < |disks| ==> Distinct(disks[i].devices)
    requires var placed := Fixed(disks) + LastMax(disks);
             && |arrays| == |placed| && (forall i :: 0 <= i < |placed| ==> |arrays[i]| == |placed[i].devices|)
             && forall i, j :: 0 <= i < |placed| && 0 <= j < |placed[i].devices| ==>
                  arrays[i][j] == ComponentName(placed[i].devices[j], NumberOn(placed, i, placed[i].devices[j]))
    ensures AllDistinct(arrays)
  {
    var placed := Fixed(disks) + LastMax(disks);
    forall i | 0 <= i < |placed| ensures placed[i] in disks { ReorderedAmong(disks, placed[i]); }
    FixedAndMax(disks);
    forall i: nat, j: nat, k: nat, l: nat ensures !InTwoPlaces(arrays, i, j, k, l) {
      if i < |arrays| && j < |arrays[i]| && k < |arrays| && l < |arrays[k]| && arrays[i][j] == arrays[k][l] {
        assert placed[i] in disks && placed[k] in disks;
        NoSharedComponent(placed, i, j, k, l);
      }
    }
  }

  lemma {:induction false} ComponentWasMade(placed: seq<Placed>, starts: map<string, Pos>, log: seq<Mkpart>, i: nat,
      j: nat)
    requires Started(placed, starts) && forall d :: d in starts ==> On(log, d) == Expected(placed, starts[d], d)
    requires i < |placed| && j < |placed[i].devices|
    ensures var d := placed[i].devices[j]; ComponentOk(log, d, ComponentName(d, NumberOn(placed, i, d)), i)
  {
    var d := placed[i].devices[j];
    var n := NumberOn(placed, i, d);
    LoopsAgree(placed, starts[d], d);
    assert On(log, d)[n - 1].volume == i;
    forall m: nat ensures ComponentName(d, n) == Names.PartitionIndexToPath(d, m) <==> n == m && KernelNamed(d) {
      ComponentNameIsPathOf(d, n, m);
    }
  }

  lemma {:induction false} PartitionIsUsed(placed: seq<Placed>, starts: map<string, Pos>, log: seq<Mkpart>, d: string,
      k: nat, arrays: seq<seq<string>>)
    requires d in starts && On(log, d) == Expected(placed, starts[d], d) && k < |On(log, d)|
    requires |arrays| == |placed| && forall i :: 0 <= i < |placed| ==> |arrays[i]| == |placed[i].devices|
    requires forall i, j :: 0 <= i < |placed| && 0 <= j < |placed[i].devices| ==>
      arrays[i][j] == ComponentName(placed[i].devices[j], NumberOn(placed, i, placed[i].devices[j]))
    ensures On(log, d)[k].volume < |arrays| && ComponentName(d, k + 1) in arrays[On(log, d)[k].volume]
  {
    LoopsAgree(placed, starts[d], d);
    var i := On(log, d)[k].volume;
    var j :| 0 <= j < |placed[i].devices| && placed[i].devices[j] == d;
    assert arrays[i][j] == ComponentName(d, k + 1);
  }

  lemma {:induction false} ReorderedAmong(placed: seq<Placed>, x: Placed)
    ensures x in Fixed(placed) || x in LastMax(placed) ==> x in placed
  {
    if placed != [] { ReorderedAmong(placed[..|placed| - 1], x); }
  }

  lemma {:induction false} ReorderedOk(disks: seq<Placed>, starts: map<string, Pos>)
    requires Started(disks, starts) && forall i :: 0 <= i < |disks| ==> Distinct(disks[i].devices)
    ensures var r := Fixed(disks) + LastMax(disks);
            Started(r, starts) && forall i :: 0 <= i < |r| ==> Distinct(r[i].devices)
  {
    var r := Fixed(disks) + LastMax(disks);
    forall i | 0 <= i < |r| ensures r[i] in disks { ReorderedAmong(disks, r[i]); }
  }

  /** What comes before the number in a component name. */
  function ComponentStem(device: string): string {
    device + if Names.Contains(device, "nvme") then "p" else ""
  }

  /** A string that goes on with digits, the first of which is not 0. */
  predicate ExtendedByDigits(s: string, t: string) {
    s < t && Names.AllDigits(t[|s|..]) && t[|s|] != '0'
  }

  /** Two devices that have a component name in common. */
  predicate Confusable(d: string, e: string) {
    ExtendedByDigits(ComponentStem(d), ComponentStem(e)) || ExtendedByDigits(ComponentStem(e), ComponentStem(d))
  }

  /** Component names tell the device and the number, except between confusable devices. */
  lemma {:induction false} ComponentNameInjective(d: string, m: nat, e: string, n: nat)
    requires !Confusable(d, e) && ComponentName(d, m) == ComponentName(e, n)
    ensures d == e && m == n
  {
    var s, t := ComponentStem(d), ComponentStem(e);
    if |s| < |t| {
      LongerStem(s, m, t, n);
      assert false;
    } else if |t| < |s| {
      LongerStem(t, n, s, m);
      assert false;
    } else {
      var name := ComponentName(d, m);
      assert s == name[..|s|] == t && Names.Decimal(m) == name[|s|..] == Names.Decimal(n);
      Names.DecimalInjective(m, n);
      SamePrefix(d, e);
    }
  }

  lemma {:induction false} LongerStem(s: string, m: nat, t: string, n: nat)
    requires |s| < |t| && s + Names.Decimal(m) == t + Names.Decimal(n)
    ensures ExtendedByDigits(s, t)
  {
    var name, digits, rest := s + Names.Decimal(m), Names.Decimal(m), t[|s|..];
    assert s == name[..|s|] == t[..|s|];
    assert t == s + rest;
    assert digits == name[|s|..] == rest + Names.Decimal(n);
    Names.DecimalDigits(m);
    Names.NoLeadingZero(m);
    Names.NoLeadingZero(n);
    assert forall i :: 0 <= i < |rest| ==> rest[i] == digits[i];
    assert |digits| > 1;
  }

  /** Confusable devices do have a component name in common. */
  lemma {:induction false} ConfusableNames(d: string, e: string) returns (m: nat, n: nat)
    requires Confusable(d, e)
    ensures d != e && m > 0 && n > 0 && ComponentName(d, m) == ComponentName(e, n)
  {
    var s, t := ComponentStem(d), ComponentStem(e);
    if ExtendedByDigits(s, t) {
      n := 1;
      m := CommonName(s, t);
    } else {
      m := 1;
      n := CommonName(t, s);
    }
  }

  lemma {:induction false} CommonName(s: string, t: string) returns (m: nat)
    requires ExtendedByDigits(s, t)
    ensures m > 0 && s + Names.Decimal(m) == t + Names.Decimal(1)
  {
    var rest := t[|s|..];
    assert t == s + rest;
    var digits := rest + Names.Decimal(1);
    Names.DecimalDigits(1);
    Names.DecimalOfValue(digits);
    m := Names.Value(digits);
    assert s + digits == s + rest + Names.Decimal(1);
  }

  /** Nvme devices and devices that do not end in a digit are not confusable with each other. */
  lemma {:induction false} NotConfusable(d: string, e: string)
    requires Names.Contains(d, "nvme") || !Names.EndsInDigit(d)
    requires Names.Contains(e, "nvme") || !Names.EndsInDigit(e)
    ensures !Confusable(d, e)
  {
    var s, t := ComponentStem(d), ComponentStem(e);
    assert !Names.EndsInDigit(s) && !Names.EndsInDigit(t);
    assert s < t ==> t[|s|..][|t| - |s| - 1] == t[|t| - 1];
    assert t < s ==> s[|t|..][|s| - |t| - 1] == s[|s| - 1];
  }

  lemma {:induction false} SamePrefix(d: string, e: string)
    requires d + (if Names.Contains(d, "nvme") then "p" else "") == e + (if Names.Contains(e, "nvme") then "p" else "")
    ensures d == e
  {
    var sd := d + if Names.Contains(d, "nvme") then "p" else "";
    if Names.Contains(d, "nvme") { ContainsMore(d, "p", "nvme"); }
    if Names.Contains(e, "nvme") { ContainsMore(e, "p", "nvme"); }
    assert d + "" == d && e + "" == e;
    assert Names.Contains(d, "nvme") <==> Names.Contains(e, "nvme");
    assert d == sd[..|d|] == e;
  }

  lemma {:induction false} ContainsMore(s: string, t: string, sub: string)
    requires Names.Contains(s, sub)
    ensures Names.Contains(s + t, sub)
  {
    var i: nat :| i <= |s| && Names.OccursAt(s, sub, i);
    assert (s + t)[i..i + |sub|] == s[i..i + |sub|];
    assert Names.OccursAt(s + t, sub, i);
  }

  /** The numbers up to ten never lead to a shared name, whatever the devices are: their last digits differ. */
  lemma {:induction false} UpToTenInjective(d: string, m: nat, e: string, n: nat)
    requires 1 <= m <= 10 && 1 <= n <= 10 && ComponentName(d, m) == ComponentName(e, n)
    ensures d == e && m == n
  {
    var name, s, t := ComponentName(d, m), ComponentStem(d), ComponentStem(e);
    LastDigit(s, m);
    LastDigit(t, n);
    assert name[|name| - 1] == Names.Digit(m % 10) == Names.Digit(n % 10);
    assert m == n;
    assert s == name[..|s|] == t;
    SamePrefix(d, e);
  }

  lemma {:induction false} LastDigit(stem: string, n: nat)
    ensures var name := stem + Names.Decimal(n); name != "" && name[|name| - 1] == Names.Digit(n % 10)
  {
  }

  lemma {:induction false} FewOwners(placed: seq<Placed>, device: string)
    ensures |OwnersOn(placed, device)| <= |placed|
  {
    if placed != [] { FewOwners(placed[..|placed| - 1], device); }
  }

  /** No partition is a component of two arrays, or twice of one, unless there are more than ten logical disks
      and two devices are confusable. */
  lemma {:induction false} NoSharedComponent(placed: seq<Placed>, i: nat, j: nat, k: nat, l: nat)
    requires forall n :: 0 <= n < |placed| ==> Distinct(placed[n].devices)
    requires i < |placed| && k < |placed| && j < |placed[i].devices| && l < |placed[k].devices|
    requires |placed| <= 10 || !Confusable(placed[i].devices[j], placed[k].devices[l])
    requires ComponentName(placed[i].devices[j], NumberOn(placed, i, placed[i].devices[j])) ==
             ComponentName(placed[k].devices[l], NumberOn(placed, k, placed[k].devices[l]))
    ensures i == k && j == l
  {
    var d, e := placed[i].devices[j], placed[k].devices[l];
    if |placed| <= 10 {
      FewOwners(placed[..i], d);
      FewOwners(placed[..k], e);
      UpToTenInjective(d, NumberOn(placed, i, d), e, NumberOn(placed, k, e));
    } else {
      ComponentNameInjective(d, NumberOn(placed, i, d), e, NumberOn(placed, k, e));
    }
    OwnerNumber(placed, i, d);
    OwnerNumber(placed, k, d);
  }

  /** Every accepted target has at most two logical disks, whatever the reconciliation takes out: no partition is
      a component of two arrays, or twice of one. */
  lemma {:induction false} AcceptedShareNothing(target: seq<LogicalDisk>, rm: seq<LogicalDisk>, skipping: bool,
      deviceCount: nat, disks: seq<Placed>, i: nat, j: nat, k: nat, l: nat)
    requires Acceptable(target, skipping, deviceCount) && |disks| == |Reconcile.Remaining(target, rm)|
    requires forall n :: 0 <= n < |disks| ==> Distinct(disks[n].devices)
    requires i < |disks| && k < |disks| && j < |disks[i].devices| && l < |disks[k].devices|
    requires ComponentName(disks[i].devices[j], NumberOn(disks, i, disks[i].devices[j])) ==
             ComponentName(disks[k].devices[l], NumberOn(disks, k, disks[k].devices[l]))
    ensures |disks| <= 2 && i == k && j == l
  {
    FewRemain(target, rm);
    NoSharedComponent(disks, i, j, k, l);
  }

  lemma {:induction false} FewRemain(target: seq<LogicalDisk>, rm: seq<LogicalDisk>)
    ensures |Reconcile.Remaining(target, rm)| <= |target|
  {
    if target != [] { FewRemain(target[..|target| - 1], rm); }
  }

  /** Two devices that share a component name: partition 11 of the first and partition 1 of the second. */
  lemma {:induction false} NbdIsConfusable()
    ensures ComponentName("/dev/nbd1", 11) == ComponentName("/dev/nbd11", 1) == "/dev/nbd111"
  {
    var d, e := "/dev/nbd1", "/dev/nbd11";
    Names.ContainsAll(d, "nvme", 2);
    Names.ContainsAll(e, "nvme", 2);
    assert Names.Decimal(11) == Names.Decimal(1) + ['1'] && Names.Decimal(1) == ['1'];
    assert d + "" + Names.Decimal(11) == "/dev/nbd111" && e + "" + Names.Decimal(1) == "/dev/nbd111";
  }

  function Copies(disk: Placed, n: nat): (placed: seq<Placed>)
    ensures |placed| == n && forall i :: 0 <= i < n ==> placed[i] == disk
  {
    seq(n, i => disk)
  }

  lemma {:induction false} OwnersOfCopies(disk: Placed, n: nat, device: string)
    requires device in disk.devices
    ensures |OwnersOn(Copies(disk, n), device)| == n
  {
    if n > 0 {
      OwnersOfCopies(disk, n - 1, device);
      assert Copies(disk, n)[..n - 1] == Copies(disk, n - 1);
    }
  }

  /** With eleven logical disks on these two devices, the last array and the first one do share a component; no
      accepted target has that many. */
  lemma {:induction false} ElevenDisks(disk: LogicalDisk)
    ensures var placed := Copies(Placed(disk, ["/dev/nbd1", "/dev/nbd11"]), 11);
            ComponentName(placed[10].devices[0], NumberOn(placed, 10, placed[10].devices[0])) ==
            ComponentName(placed[0].devices[1], NumberOn(placed, 0, placed[0].devices[1]))
  {
    var both := Placed(disk, ["/dev/nbd1", "/dev/nbd11"]);
    var placed := Copies(both, 11);
    assert both.devices[0] in both.devices && placed[..10] == Copies(both, 10);
    OwnersOfCopies(both, 10, "/dev/nbd1");
    assert placed[..0] == [];
    NbdIsConfusable();
  }

  /** A device whose partitions have other names: /dev/mmcblk01 is named for /dev/mmcblk0p1, and whatever is made on
      the device, no component on it is a partition that was made there. */
  lemma {:induction false} MmcIsMisnamed(log: seq<Mkpart>, m: nat, i: nat)
    ensures ComponentName(Names.MMC, 1) == Names.MMC + "1"
    ensures Names.PartitionIndexToPath(Names.MMC, 1) == Names.MMC + "p1"
    ensures !KernelNamed(Names.MMC) && !IsMade(log, Names.MMC, ComponentName(Names.MMC, m), i)
  {
    Names.MmcHasNoOtherName();
    Names.MmcPath();
    assert Names.Decimal(1) == ['1'] == "1";
    AfterDevice(Names.MMC, "", "1");
    forall n: nat ensures ComponentName(Names.MMC, m) != Names.PartitionIndexToPath(Names.MMC, n) {
      ComponentNameIsPathOf(Names.MMC, m, n);
    }
  }

  /** The component name is the kernel's name of the partition exactly for nvme devices that
      end in a digit and for other devices that do not. */
  lemma {:induction false} ComponentNameIsPath(device: string, number: nat)
    ensures ComponentName(device, number) == Names.PartitionIndexToPath(device, number) <==> KernelNamed(device)
  {
    ComponentNameIsPathOf(device, number, number);
  }

  /** A component name is never the path of another partition of the device. */
  lemma {:induction false} ComponentNameIsPathOf(device: string, m: nat, n: nat)
    ensures ComponentName(device, m) == Names.PartitionIndexToPath(device, n) <==> m == n && KernelNamed(device)
  {
    var infix := if Names.Contains(device, "nvme") then "p" else "";
    var other :=
      if Names.Contains(device, Names.ISCSI_PREFIX) then "-part" else if Names.EndsInDigit(device) then "p" else "";
    Names.DecimalDigits(m);
    Names.DecimalDigits(n);
    var name, path := ComponentName(device, m), Names.PartitionIndexToPath(device, n);
    AfterDevice(device, infix, Names.Decimal(m));
    AfterDevice(device, other, Names.Decimal(n));
    if name == path {
      SameInfix(infix, Names.Decimal(m), other, Names.Decimal(n));
      Names.DecimalInjective(m, n);
    }
  }

  lemma {:induction false} AfterDevice(device: string, infix: string, digits: string)
    ensures (device + infix + digits)[|device|..] == infix + digits
    ensures infix == "" ==> device + digits == device + infix + digits
  {
  }

  /** What stands between a device and a number can be told from what follows the device. */
  lemma {:induction false} SameInfix(p: string, s: string, q: string, t: string)
    requires p == "" || p == "p"
    requires q == "" || q == "p" || q == "-part"
    requires s != "" && t != "" && Names.AllDigits(s) && Names.AllDigits(t) && p + s == q + t
    ensures p == q && s == t
  {
    var all := p + s;
    var first := all[0];
    assert p == "p" ==> first == 'p';
    assert q == "p" ==> first == 'p';
    assert q == "-part" ==> first == '-';
    assert p == "" ==> first == s[0];
    assert q == "" ==> first == t[0];
    assert s == all[|p|..] && t == all[|q|..];
  }
}
