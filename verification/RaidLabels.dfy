/** Labelling the existing Software RAID arrays around the skip list: keep, wipe or delete. */
module RaidLabels {
  import opened Wrappers

  datatype Action = Delete | Wipe | Keep

  /** What mdadm reports about one array. */
  datatype ArrayInfo = ArrayInfo(volumeName: Option<string>, holders: seq<string>, components: seq<string>)

  /** The reports, by device name. */
  type Arrays = map<string, ArrayInfo>

  predicate Known(arrays: Arrays, devices: seq<string>) {
    forall n :: n in devices ==> n in arrays
  }

  // ----- The declarative labels -----

  predicate OnSkipList(arrays: Arrays, skipList: set<string>, name: string)
    requires name in arrays
  {
    arrays[name].volumeName.Some? && arrays[name].volumeName.value != "" && arrays[name].volumeName.value in skipList
  }

  predicate ShareHolder(arrays: Arrays, a: string, b: string)
    requires a in arrays && b in arrays
  {
    exists d :: d in arrays[a].holders && d in arrays[b].holders
  }

  predicate Spares(arrays: Arrays, skipList: set<string>, guard: string, name: string)
    requires guard in arrays && name in arrays
  {
    OnSkipList(arrays, skipList, guard) && ShareHolder(arrays, guard, name)
  }

  /** The first skip-listed array, in the order given, on a disk that also holds `name`. */
  function FirstGuard(arrays: Arrays, devices: seq<string>, skipList: set<string>, name: string): (g: Option<string>)
    requires Known(arrays, devices) && name in arrays
    ensures g.Some? ==>
      g.value in devices && OnSkipList(arrays, skipList, g.value) && ShareHolder(arrays, g.value, name)
    ensures g.None? ==> forall k :: k in devices && OnSkipList(arrays, skipList, k) ==> !ShareHolder(arrays, k, name)
  {
    if devices == [] then None else
      var last := devices[|devices| - 1];
      var earlier := FirstGuard(arrays, devices[..|devices| - 1], skipList, name);
      if earlier.Some? then earlier
      else if OnSkipList(arrays, skipList, last) && ShareHolder(arrays, last, name) then Some(last)
      else None
  }

  /** The last array, in the order given, whose volume name is 'esp'. */
  function EspPart(arrays: Arrays, devices: seq<string>): (esp: Option<string>)
    requires Known(arrays, devices)
    ensures esp.Some? ==> esp.value in devices && arrays[esp.value].volumeName == Some("esp")
    ensures esp.None? ==> forall k :: k in devices ==> arrays[k].volumeName != Some("esp")
  {
    if devices == [] then None
    else if arrays[devices[|devices| - 1]].volumeName == Some("esp") then Some(devices[|devices| - 1])
    else EspPart(arrays, devices[..|devices| - 1])
  }

  function Label(arrays: Arrays, devices: seq<string>, skipList: set<string>, name: string): Action
    requires Known(arrays, devices) && name in arrays
  {
    if OnSkipList(arrays, skipList, name) then Keep
    else if FirstGuard(arrays, devices, skipList, name).None? then Delete
    else if EspPart(arrays, devices) == Some(name) then Keep
    else Wipe
  }

  /** Only the place of the 'esp' arrays in the order can matter: two of them, of which one is
      spared because of a neighbour. */
  predicate Ambiguous(arrays: Arrays, devices: seq<string>, skipList: set<string>, m: string, n: string)
    requires Known(arrays, devices)
  {
    && m in devices && n in devices && m != n
    && arrays[m].volumeName == Some("esp") == arrays[n].volumeName
    && !OnSkipList(arrays, skipList, m) && FirstGuard(arrays, devices, skipList, m).Some?
  }

  lemma {:induction false} SameGuards(arrays: Arrays, devices: seq<string>, others: seq<string>, skipList: set<string>,
      name: string)
    requires Known(arrays, devices) && Known(arrays, others) && name in arrays
    requires forall n :: n in devices <==> n in others
    ensures FirstGuard(arrays, devices, skipList, name).Some? == FirstGuard(arrays, others, skipList, name).Some?
  {
    var g, h := FirstGuard(arrays, devices, skipList, name), FirstGuard(arrays, others, skipList, name);
    assert g.Some? ==> g.value in others;
    assert h.Some? ==> h.value in devices;
  }

  /** Where no 'esp' arrays are ambiguous the labels do not depend on the order of the arrays. */
  lemma {:induction false} LabelIgnoresOrder(arrays: Arrays, devices: seq<string>, others: seq<string>,
      skipList: set<string>, name: string)
    requires Known(arrays, devices) && Known(arrays, others) && name in devices
    requires forall n :: n in devices <==> n in others
    requires forall m, n :: !Ambiguous(arrays, devices, skipList, m, n)
    ensures Label(arrays, devices, skipList, name) == Label(arrays, others, skipList, name)
  {
    SameGuards(arrays, devices, others, skipList, name);
    var e, f := EspPart(arrays, devices), EspPart(arrays, others);
    assert e.Some? ==> e.value in others && !Ambiguous(arrays, devices, skipList, name, e.value);
    assert f.Some? ==> f.value in devices && !Ambiguous(arrays, devices, skipList, name, f.value);
  }

  /** Where two of them are, one order keeps the spared one and another has it wiped. */
  lemma {:induction false} LabelDependsOnOrder(arrays: Arrays, devices: seq<string>, skipList: set<string>, m: string,
      n: string)
    returns (p: seq<string>, q: seq<string>)
    requires Known(arrays, devices) && Ambiguous(arrays, devices, skipList, m, n)
    ensures multiset(p) == multiset(devices) == multiset(q) && Known(arrays, p) && Known(arrays, q)
    ensures Label(arrays, p, skipList, m) == Keep && Label(arrays, q, skipList, m) == Wipe
  {
    p := MovedLast(devices, m);
    q := MovedLast(devices, n);
    SameGuards(arrays, devices, p, skipList, m);
    SameGuards(arrays, devices, q, skipList, m);
  }

  /** Two such arrays: on the disk of a skip-listed array lie two 'esp' arrays, and the later one is kept. */
  lemma {:induction false} TwoEspArrays()
    ensures var esp := ArrayInfo(Some("esp"), ["/dev/sda"], []);
            var arrays := map["/dev/md0" := ArrayInfo(Some("data"), ["/dev/sda"], []), "/dev/md1" := esp,
              "/dev/md2" := esp];
            && Label(arrays, ["/dev/md0", "/dev/md2", "/dev/md1"], {"data"}, "/dev/md1") == Keep
            && Label(arrays, ["/dev/md0", "/dev/md1", "/dev/md2"], {"data"}, "/dev/md1") == Wipe
  {
    var esp := ArrayInfo(Some("esp"), ["/dev/sda"], []);
    var arrays := map["/dev/md0" := ArrayInfo(Some("data"), ["/dev/sda"], []), "/dev/md1" := esp, "/dev/md2" := esp];
    var p, q := ["/dev/md0", "/dev/md2", "/dev/md1"], ["/dev/md0", "/dev/md1", "/dev/md2"];
    assert "/dev/md0" in p && "/dev/md0" in q && OnSkipList(arrays, {"data"}, "/dev/md0");
    assert "/dev/sda" in arrays["/dev/md0"].holders && "/dev/sda" in arrays["/dev/md1"].holders;
    assert ShareHolder(arrays, "/dev/md0", "/dev/md1");
    assert "esp"[0] != "data"[0];
    assert EspPart(arrays, p) == Some("/dev/md1");
    assert EspPart(arrays, q) == Some("/dev/md2");
    assert "/dev/md1"[7] != "/dev/md2"[7];
  }

  lemma {:induction false} MovedLast(s: seq<string>, x: string) returns (r: seq<string>)
    requires x in s
    ensures multiset(r) == multiset(s) && (forall y :: y in r <==> y in s) && r != [] && r[|r| - 1] == x
  {
    var i :| 0 <= i < |s| && s[i] == x;
    r := s[..i] + s[i + 1..] + [x];
    assert s == s[..i] + [x] + s[i + 1..];
    forall y ensures y in r <==> y in s {
      assert y in r <==> y in multiset(r);
      assert y in s <==> y in multiset(s);
    }
  }

  /** The label once only the skip-listed arrays in `handled` have been handled. */
  function LabelSoFar(arrays: Arrays, handled: seq<string>, skipList: set<string>, name: string): Action
    requires Known(arrays, handled) && name in arrays
  {
    if name in handled && OnSkipList(arrays, skipList, name) then Keep
    else if FirstGuard(arrays, handled, skipList, name).Some? then Wipe
    else Delete
  }

  // ----- The labelling in place -----

  function Elements(s: seq<string>): set<string> {
    set n | n in s
  }

  function DevicesOn(onDisks: map<string, seq<string>>, disk: string): seq<string> {
    if disk in onDisks then onDisks[disk] else []
  }

  /** Compared with an older dictionary, one more array is recorded on some disks. */
  ghost predicate RecordedOn(older: map<string, seq<string>>, newer: map<string, seq<string>>, name: string,
      disks: seq<string>)
  {
    forall d, n :: n in DevicesOn(newer, d) <==> n in DevicesOn(older, d) || (n == name && d in disks)
  }

  lemma {:induction false} RecordedOnMore(older: map<string, seq<string>>, before: map<string, seq<string>>,
      after: map<string, seq<string>>, name: string, disks: seq<string>, disk: string)
    requires RecordedOn(older, before, name, disks)
    requires after == before[disk := DevicesOn(before, disk) + [name]]
    ensures RecordedOn(older, after, name, disks + [disk])
  {
    forall d, n ensures n in DevicesOn(after, d) <==> n in DevicesOn(older, d) || (n == name && d in disks + [disk]) {
      assert n in DevicesOn(after, d) <==> n in DevicesOn(before, d) || (n == name && d == disk);
    }
  }

  /** All arrays recorded on any of the disks. */
  function DevicesOnAny(onDisks: map<string, seq<string>>, disks: seq<string>): (s: set<string>)
    ensures forall n :: n in s <==> exists d :: d in disks && n in DevicesOn(onDisks, d)
  {
    if disks == [] then {} else
      var here := DevicesOn(onDisks, disks[|disks| - 1]);
      DevicesOnAny(onDisks, disks[..|disks| - 1]) + Elements(here)
  }

  /** The labels once array `name` is kept and its neighbours `hits` are spared. */
  function Spared(labels: map<string, Action>, name: string, hits: set<string>): map<string, Action> {
    map n | n in labels :: if n == name then Keep else if n in hits && labels[n] == Delete then Wipe else labels[n]
  }

  /** The causes that go with them: the first array to spare a neighbour is its cause. */
  function Causes(causes: map<string, Option<string>>, labels: map<string, Action>, name: string, hits: set<string>,
      cause: Option<string>)
    : map<string, Option<string>>
  {
    causes + map n | n in labels && n in hits && n != name && labels[n] == Delete :: cause
  }

  lemma {:induction false} SparedMore(labels: map<string, Action>, name: string, hits: set<string>, n: string)
    requires n in labels
    ensures Spared(labels, name, hits + {n}) ==
      if n != name && Spared(labels, name, hits)[n] == Delete
        then Spared(labels, name, hits)[n := Wipe] else Spared(labels, name, hits)
  {
  }

  lemma {:induction false} CausesMore(labels: map<string, Action>, causes: map<string, Option<string>>, name: string,
      hits: set<string>, n: string,
                   cause: Option<string>)
    requires n in labels
    ensures Causes(causes, labels, name, hits + {n}, cause) ==
      if n != name && Spared(labels, name, hits)[n] == Delete
      then Causes(causes, labels, name, hits, cause)[n := cause] else Causes(causes, labels, name, hits, cause)
  {
  }

  /** The dictionaries that the helper functions are handed and update. */
  class Labelling {
    const arrays: Arrays
    const skipList: set<string>

    var deleteRaidDevices: map<string, Action>
    var volumeNameOfRaidDevices: map<string, Option<string>>
    var causeOfNotDeleting: map<string, Option<string>>
    var raidDevicesOnHolderDisks: map<string, seq<string>>
    var volumeNameOnSkipList: map<string, bool>

    constructor (arrays: Arrays, skipList: set<string>)
      ensures this.arrays == arrays && this.skipList == skipList
      ensures deleteRaidDevices == map[] && volumeNameOfRaidDevices == map[] && causeOfNotDeleting == map[]
      ensures raidDevicesOnHolderDisks == map[] && volumeNameOnSkipList == map[]
    {
      this.arrays, this.skipList := arrays, skipList;
      deleteRaidDevices, volumeNameOfRaidDevices, causeOfNotDeleting := map[], map[], map[];
      raidDevicesOnHolderDisks, volumeNameOnSkipList := map[], map[];
    }

    /** Records the holder disks, the volume name and whether it is on the skip list. */
    method AnalyzeRaidDevice(name: string) returns (espPart: Option<string>)
      requires name in arrays
      modifies this`raidDevicesOnHolderDisks, this`volumeNameOfRaidDevices, this`volumeNameOnSkipList
      ensures espPart == if arrays[name].volumeName == Some("esp") then Some(name) else None
      ensures volumeNameOfRaidDevices == old(volumeNameOfRaidDevices)[name := arrays[name].volumeName]
      ensures volumeNameOnSkipList ==
        if arrays[name].volumeName.GetOr("") != ""
        then old(volumeNameOnSkipList)[name := OnSkipList(arrays, skipList, name)] else old(volumeNameOnSkipList)
      ensures forall d, n :: n in DevicesOn(raidDevicesOnHolderDisks, d) <==>
                n in DevicesOn(old(raidDevicesOnHolderDisks), d) || (n == name && d in arrays[name].holders)
    {
      var holders := arrays[name].holders;
      for i := 0 to |holders|
        invariant volumeNameOfRaidDevices == old(volumeNameOfRaidDevices) &&
          volumeNameOnSkipList == old(volumeNameOnSkipList)
        invariant RecordedOn(old(raidDevicesOnHolderDisks), raidDevicesOnHolderDisks, name, holders[..i])
      {
        var d := holders[i];
        ghost var before := raidDevicesOnHolderDisks;
        assert holders[..i + 1] == holders[..i] + [d];
        if d in raidDevicesOnHolderDisks && raidDevicesOnHolderDisks[d] != [] {
          raidDevicesOnHolderDisks := raidDevicesOnHolderDisks[d := raidDevicesOnHolderDisks[d] + [name]];
        } else {
          assert DevicesOn(before, d) + [name] == [name];
          raidDevicesOnHolderDisks := raidDevicesOnHolderDisks[d := [name]];
        }
        RecordedOnMore(old(raidDevicesOnHolderDisks), before, raidDevicesOnHolderDisks, name, holders[..i], d);
      }
      var volumeName := arrays[name].volumeName;
      espPart := if volumeName == Some("esp") then Some(name) else None;
      volumeNameOfRaidDevices := volumeNameOfRaidDevices[name := volumeName];
      assert holders[..|holders|] == holders;
      if volumeName.GetOr("") != "" {
        volumeNameOnSkipList := volumeNameOnSkipList[name := volumeName.value in skipList];
      }
    }

    /** The loop over the arrays on one holder disk. */
    method SpareNeighbours(name: string, neighbours: seq<string>, ghost labels: map<string, Action>,
                           ghost causes: map<string, Option<string>>, ghost before: set<string>)
      requires name in volumeNameOfRaidDevices && (forall n :: n in neighbours ==> n in labels)
      requires deleteRaidDevices == Spared(labels, name, before) && name in labels
      requires causeOfNotDeleting == Causes(causes, labels, name, before, volumeNameOfRaidDevices[name])
      modifies this`deleteRaidDevices, this`causeOfNotDeleting
      ensures deleteRaidDevices == Spared(labels, name, before + Elements(neighbours))
      ensures causeOfNotDeleting ==
        Causes(causes, labels, name, before + Elements(neighbours), volumeNameOfRaidDevices[name])
    {
      ghost var cause := volumeNameOfRaidDevices[name];
      ghost var hits := before;
      for j := 0 to |neighbours|
        invariant hits == before + Elements(neighbours[..j])
        invariant deleteRaidDevices == Spared(labels, name, hits)
        invariant causeOfNotDeleting == Causes(causes, labels, name, hits, cause)
      {
        var n := neighbours[j];
        assert neighbours[..j + 1] == neighbours[..j] + [n];
        SparedMore(labels, name, hits, n);
        CausesMore(labels, causes, name, hits, n, cause);
        if n != name && deleteRaidDevices[n] == Delete {
          deleteRaidDevices := deleteRaidDevices[n := Wipe];
          causeOfNotDeleting := causeOfNotDeleting[n := volumeNameOfRaidDevices[name]];
        }
        hits := hits + {n};
      }
      assert neighbours[..|neighbours|] == neighbours;
    }

    /** Keeps one array and wipes the arrays on its disks that were to be deleted. */
    method HandleRaidWithVolumeNameOnSkipList(name: string)
      requires name in arrays && name in deleteRaidDevices && name in volumeNameOfRaidDevices
      requires forall d :: d in arrays[name].holders ==> d in raidDevicesOnHolderDisks
      requires DevicesOnAny(raidDevicesOnHolderDisks, arrays[name].holders) <= deleteRaidDevices.Keys
      modifies this`deleteRaidDevices, this`causeOfNotDeleting
      ensures var hits := DevicesOnAny(raidDevicesOnHolderDisks, arrays[name].holders);
              && deleteRaidDevices == Spared(old(deleteRaidDevices), name, hits)
              && causeOfNotDeleting ==
                 Causes(old(causeOfNotDeleting), old(deleteRaidDevices), name, hits, volumeNameOfRaidDevices[name])
    {
      ghost var labels, causes := deleteRaidDevices, causeOfNotDeleting;
      deleteRaidDevices := deleteRaidDevices[name := Keep];
      var holders := arrays[name].holders;
      for i := 0 to |holders|
        invariant deleteRaidDevices == Spared(labels, name, DevicesOnAny(raidDevicesOnHolderDisks, holders[..i]))
        invariant causeOfNotDeleting == Causes(causes, labels, name,
          DevicesOnAny(raidDevicesOnHolderDisks, holders[..i]), volumeNameOfRaidDevices[name])
      {
        assert holders[..i + 1][..i] == holders[..i];
        var neighbours := raidDevicesOnHolderDisks[holders[i]];
        assert forall n :: n in neighbours ==> n in DevicesOn(raidDevicesOnHolderDisks, holders[i]);
        SpareNeighbours(name, neighbours, labels, causes, DevicesOnAny(raidDevicesOnHolderDisks, holders[..i]));
      }
      assert holders[..|holders|] == holders;
    }
  }

  /** What the first loop has recorded once `devices` have been analysed. */
  ghost predicate VolumesOk(arrays: Arrays, devices: seq<string>, volumes: map<string, Option<string>>)
    requires Known(arrays, devices)
  {
    && volumes.Keys == Elements(devices)
    && (forall n :: n in volumes ==> volumes[n] == arrays[n].volumeName)
  }

  ghost predicate FlagsOk(arrays: Arrays, devices: seq<string>, skipList: set<string>, flags: map<string, bool>)
    requires Known(arrays, devices)
  {
    forall n :: n in devices ==> (n in flags && flags[n] <==> OnSkipList(arrays, skipList, n))
  }

  ghost predicate DisksOk(arrays: Arrays, devices: seq<string>, onDisks: map<string, seq<string>>)
    requires Known(arrays, devices)
  {
    forall d, n :: n in DevicesOn(onDisks, d) <==> n in devices && d in arrays[n].holders
  }

  /** A cause is recorded exactly for the arrays that have a skip-listed one on one of their disks, the first of
      which is another array: its volume name.  These are the spared arrays that are not skip-listed themselves,
      and the skip-listed ones that were spared before their own turn. */
  ghost predicate CausesOk(arrays: Arrays, devices: seq<string>, handled: seq<string>, skipList: set<string>,
                           causes: map<string, Option<string>>)
    requires Known(arrays, devices) && Known(arrays, handled)
  {
    && (forall n :: n in causes ==> n in devices)
    && (forall n :: n in devices ==>
          var guard := FirstGuard(arrays, handled, skipList, n);
          if guard.None? || guard.value == n then n !in causes
          else n in causes && causes[n] == arrays[guard.value].volumeName)
  }

  ghost predicate LabelsOk(arrays: Arrays, devices: seq<string>, handled: seq<string>, skipList: set<string>,
      labels: map<string, Action>)
    requires Known(arrays, devices) && Known(arrays, handled)
  {
    && (forall n :: n in labels <==> n in devices)
    && (forall n :: n in devices ==> labels[n] == LabelSoFar(arrays, handled, skipList, n))
  }

  lemma {:induction false} OneMore(arrays: Arrays, handled: seq<string>, skipList: set<string>, name: string, n: string)
    requires Known(arrays, handled) && name in arrays && n in arrays
    ensures var more := handled + [name];
            var before, listed := LabelSoFar(arrays, handled, skipList, n), OnSkipList(arrays, skipList, name);
            && LabelSoFar(arrays, more, skipList, n) ==
               (if !listed then before else if n == name then Keep
                else if ShareHolder(arrays, name, n) && before == Delete then Wipe else before)
            && FirstGuard(arrays, more, skipList, n) ==
               (if FirstGuard(arrays, handled, skipList, n).None? && listed && ShareHolder(arrays, name, n)
                 then Some(name)
                else FirstGuard(arrays, handled, skipList, n))
  {
    assert (handled + [name])[..|handled|] == handled;
  }

  lemma {:induction false} UnlistedStep(arrays: Arrays, devices: seq<string>, handled: seq<string>,
      skipList: set<string>, name: string,
                     labels: map<string, Action>, causes: map<string, Option<string>>)
    requires Known(arrays, devices) && Known(arrays, handled) && name in devices && !OnSkipList(arrays, skipList, name)
    requires LabelsOk(arrays, devices, handled, skipList, labels) &&
      CausesOk(arrays, devices, handled, skipList, causes)
    ensures LabelsOk(arrays, devices, handled + [name], skipList, labels) &&
      CausesOk(arrays, devices, handled + [name], skipList, causes)
  {
    forall n | n in devices
      ensures LabelSoFar(arrays, handled + [name], skipList, n) == LabelSoFar(arrays, handled, skipList, n)
      ensures FirstGuard(arrays, handled + [name], skipList, n) == FirstGuard(arrays, handled, skipList, n)
    {
      OneMore(arrays, handled, skipList, name, n);
    }
  }

  lemma {:induction false} ListedStep(arrays: Arrays, devices: seq<string>, handled: seq<string>,
      skipList: set<string>, name: string,
                   labels: map<string, Action>, causes: map<string, Option<string>>, hits: set<string>)
    requires Known(arrays, devices) && Known(arrays, handled) && name in devices && OnSkipList(arrays, skipList, name)
    requires forall n :: n in hits <==> n in devices && ShareHolder(arrays, name, n)
    requires LabelsOk(arrays, devices, handled, skipList, labels) &&
      CausesOk(arrays, devices, handled, skipList, causes)
    ensures LabelsOk(arrays, devices, handled + [name], skipList, Spared(labels, name, hits))
    ensures CausesOk(arrays, devices, handled + [name], skipList,
      Causes(causes, labels, name, hits, arrays[name].volumeName))
  {
    forall n | n in devices
      ensures Spared(labels, name, hits)[n] == LabelSoFar(arrays, handled + [name], skipList, n)
    {
      OneMore(arrays, handled, skipList, name, n);
    }
    var after := Causes(causes, labels, name, hits, arrays[name].volumeName);
    forall n | n in devices
      ensures var guard := FirstGuard(arrays, handled + [name], skipList, n);
              if guard.None? || guard.value == n then n !in after
              else n in after && after[n] == arrays[guard.value].volumeName
    {
      OneMore(arrays, handled, skipList, name, n);
      assert n in handled && ShareHolder(arrays, name, n) ==> ShareHolder(arrays, n, n);
    }
  }

  /** What the first loop recorded is who shares a holder disk. */
  lemma {:induction false} Hits(arrays: Arrays, devices: seq<string>, onDisks: map<string, seq<string>>, name: string)
    requires Known(arrays, devices) && DisksOk(arrays, devices, onDisks) && name in devices
    ensures forall d :: d in arrays[name].holders ==> d in onDisks
    ensures forall n :: n in DevicesOnAny(onDisks, arrays[name].holders) <==>
      n in devices && ShareHolder(arrays, name, n)
    ensures DevicesOnAny(onDisks, arrays[name].holders) <= Elements(devices)
  {
    forall d | d in arrays[name].holders ensures d in onDisks {
      assert name in DevicesOn(onDisks, d);
    }
  }

  lemma {:induction false} FirstLoopStep(arrays: Arrays, devices: seq<string>, skipList: set<string>, name: string,
      volumes: map<string, Option<string>>,
                      flags: map<string, bool>)
    requires Known(arrays, devices) && name in arrays
    requires VolumesOk(arrays, devices, volumes) && FlagsOk(arrays, devices, skipList, flags)
    ensures VolumesOk(arrays, devices + [name], volumes[name := arrays[name].volumeName])
    ensures arrays[name].volumeName.GetOr("") != "" ==>
      FlagsOk(arrays, devices + [name], skipList, flags[name := OnSkipList(arrays, skipList, name)])
    ensures arrays[name].volumeName.GetOr("") == "" && (name in devices || name !in flags) ==>
      FlagsOk(arrays, devices + [name], skipList, flags)
  {
  }

  datatype Decisions = Decisions(
    deleteRaidDevices: map<string, Action>, volumeNameOfRaidDevices: map<string, Option<string>>,
    causeOfNotDeleting: map<string, Option<string>>)

  /** One round of the first loop. */
  method AnalyseOne(l: Labelling, ghost devices: seq<string>, name: string) returns (candidate: Option<string>)
    requires Known(l.arrays, devices) && name in l.arrays
    requires VolumesOk(l.arrays, devices, l.volumeNameOfRaidDevices)
    requires FlagsOk(l.arrays, devices, l.skipList, l.volumeNameOnSkipList) &&
      l.volumeNameOnSkipList.Keys <= Elements(devices)
    requires DisksOk(l.arrays, devices, l.raidDevicesOnHolderDisks)
    modifies l`deleteRaidDevices, l`raidDevicesOnHolderDisks, l`volumeNameOfRaidDevices, l`volumeNameOnSkipList
    ensures l.deleteRaidDevices == old(l.deleteRaidDevices)[name := Delete]
    ensures VolumesOk(l.arrays, devices + [name], l.volumeNameOfRaidDevices)
    ensures FlagsOk(l.arrays, devices + [name], l.skipList, l.volumeNameOnSkipList) &&
      l.volumeNameOnSkipList.Keys <= Elements(devices + [name])
    ensures DisksOk(l.arrays, devices + [name], l.raidDevicesOnHolderDisks)
    ensures candidate == if l.arrays[name].volumeName == Some("esp") then Some(name) else None
  {
    FirstLoopStep(l.arrays, devices, l.skipList, name, l.volumeNameOfRaidDevices, l.volumeNameOnSkipList);
    l.deleteRaidDevices := l.deleteRaidDevices[name := Delete];
    candidate := l.AnalyzeRaidDevice(name);
  }

  /** The first loop of the labelling: a later 'esp' array replaces an earlier one. */
  method AnalyseAll(l: Labelling, devices: seq<string>) returns (espPart: Option<string>)
    requires Known(l.arrays, devices) && l.volumeNameOfRaidDevices == map[] && l.volumeNameOnSkipList == map[]
    requires l.raidDevicesOnHolderDisks == map[] && l.deleteRaidDevices == map[]
    modifies l`deleteRaidDevices, l`raidDevicesOnHolderDisks, l`volumeNameOfRaidDevices, l`volumeNameOnSkipList
    ensures l.deleteRaidDevices == map n | n in devices :: Delete
    ensures VolumesOk(l.arrays, devices, l.volumeNameOfRaidDevices)
    ensures FlagsOk(l.arrays, devices, l.skipList, l.volumeNameOnSkipList)
    ensures DisksOk(l.arrays, devices, l.raidDevicesOnHolderDisks)
    ensures espPart == EspPart(l.arrays, devices)
  {
    espPart := None;
    for i := 0 to |devices|
      invariant l.deleteRaidDevices == map n | n in devices[..i] :: Delete
      invariant VolumesOk(l.arrays, devices[..i], l.volumeNameOfRaidDevices)
      invariant FlagsOk(l.arrays, devices[..i], l.skipList, l.volumeNameOnSkipList)
      invariant l.volumeNameOnSkipList.Keys <= Elements(devices[..i])
      invariant DisksOk(l.arrays, devices[..i], l.raidDevicesOnHolderDisks)
      invariant espPart == EspPart(l.arrays, devices[..i])
    {
      var name := devices[i];
      assert devices[..i + 1] == devices[..i] + [name] && devices[..i + 1][..i] == devices[..i];
      var candidate := AnalyseOne(l, devices[..i], name);
      if candidate.Some? { espPart := candidate; }
    }
    assert devices[..|devices|] == devices;
  }

  /** One round of the second loop. */
  method HandleIfListed(l: Labelling, devices: seq<string>, ghost handled: seq<string>, name: string)
    requires Known(l.arrays, devices) && Known(l.arrays, handled) && name in devices
    requires VolumesOk(l.arrays, devices, l.volumeNameOfRaidDevices)
    requires FlagsOk(l.arrays, devices, l.skipList, l.volumeNameOnSkipList)
    requires DisksOk(l.arrays, devices, l.raidDevicesOnHolderDisks)
    requires LabelsOk(l.arrays, devices, handled, l.skipList, l.deleteRaidDevices)
    requires CausesOk(l.arrays, devices, handled, l.skipList, l.causeOfNotDeleting)
    modifies l`deleteRaidDevices, l`causeOfNotDeleting
    ensures LabelsOk(l.arrays, devices, handled + [name], l.skipList, l.deleteRaidDevices)
    ensures CausesOk(l.arrays, devices, handled + [name], l.skipList, l.causeOfNotDeleting)
  {
    ghost var labels, causes := l.deleteRaidDevices, l.causeOfNotDeleting;
    if name in l.volumeNameOnSkipList && l.volumeNameOnSkipList[name] {
      ghost var hits := DevicesOnAny(l.raidDevicesOnHolderDisks, l.arrays[name].holders);
      Hits(l.arrays, devices, l.raidDevicesOnHolderDisks, name);
      l.HandleRaidWithVolumeNameOnSkipList(name);
      ListedStep(l.arrays, devices, handled, l.skipList, name, labels, causes, hits);
    } else {
      UnlistedStep(l.arrays, devices, handled, l.skipList, name, labels, causes);
    }
  }

  lemma {:induction false} NothingHandled(arrays: Arrays, devices: seq<string>, skipList: set<string>)
    requires Known(arrays, devices)
    ensures LabelsOk(arrays, devices, [], skipList, map n | n in devices :: Delete)
    ensures CausesOk(arrays, devices, [], skipList, map[])
  {
  }

  /** The second loop of the labelling. */
  method HandleAll(l: Labelling, devices: seq<string>)
    requires Known(l.arrays, devices)
    requires l.deleteRaidDevices == (map n | n in devices :: Delete) && l.causeOfNotDeleting == map[]
    requires VolumesOk(l.arrays, devices, l.volumeNameOfRaidDevices)
    requires FlagsOk(l.arrays, devices, l.skipList, l.volumeNameOnSkipList)
    requires DisksOk(l.arrays, devices, l.raidDevicesOnHolderDisks)
    modifies l`deleteRaidDevices, l`causeOfNotDeleting
    ensures LabelsOk(l.arrays, devices, devices, l.skipList, l.deleteRaidDevices)
    ensures CausesOk(l.arrays, devices, devices, l.skipList, l.causeOfNotDeleting)
  {
    NothingHandled(l.arrays, devices, l.skipList);
    assert devices[..0] == [];
    for i := 0 to |devices|
      invariant LabelsOk(l.arrays, devices, devices[..i], l.skipList, l.deleteRaidDevices)
      invariant CausesOk(l.arrays, devices, devices[..i], l.skipList, l.causeOfNotDeleting)
    {
      HandleIfListed(l, devices, devices[..i], devices[i]);
      assert devices[..i + 1] == devices[..i] + [devices[i]];
    }
    assert devices[..|devices|] == devices;
  }

  lemma {:induction false} FinalLabels(arrays: Arrays, devices: seq<string>, skipList: set<string>,
      labels: map<string, Action>)
    requires Known(arrays, devices) && LabelsOk(arrays, devices, devices, skipList, labels)
    ensures var esp := EspPart(arrays, devices);
            (if esp.Some? && esp.value in labels && labels[esp.value] == Wipe
              then labels[esp.value := Keep] else labels)
            == map n | n in devices :: Label(arrays, devices, skipList, n)
  {
  }

  lemma {:induction false} VolumesAre(arrays: Arrays, devices: seq<string>, volumes: map<string, Option<string>>)
    requires Known(arrays, devices) && VolumesOk(arrays, devices, volumes)
    ensures volumes == map n | n in devices :: arrays[n].volumeName
  {
  }

  /** The whole labelling: every array gets its declarative label, and the recorded causes are exactly the
      volume names of the first skip-listed neighbours. */
  method HandleRaidSkipList(arrays: Arrays, devices: seq<string>, skipList: set<string>) returns (d: Decisions)
    requires Known(arrays, devices)
    ensures d.deleteRaidDevices == map n | n in devices :: Label(arrays, devices, skipList, n)
    ensures d.volumeNameOfRaidDevices == map n | n in devices :: arrays[n].volumeName
    ensures CausesOk(arrays, devices, devices, skipList, d.causeOfNotDeleting)
  {
    var l := new Labelling(arrays, skipList);
    var espPart := AnalyseAll(l, devices);
    HandleAll(l, devices);
    VolumesAre(arrays, devices, l.volumeNameOfRaidDevices);
    FinalLabels(arrays, devices, skipList, l.deleteRaidDevices);
    if espPart.Some? && espPart.value in l.deleteRaidDevices && l.deleteRaidDevices[espPart.value] == Wipe {
      l.deleteRaidDevices := l.deleteRaidDevices[espPart.value := Keep];
    }
    return Decisions(l.deleteRaidDevices, l.volumeNameOfRaidDevices, l.causeOfNotDeleting);
  }

  /** The last array called 'esp'. */
  predicate LastEsp(arrays: Arrays, devices: seq<string>, name: string)
    requires Known(arrays, devices)
  {
    exists i :: 0 <= i < |devices| && devices[i] == name && arrays[devices[i]].volumeName == Some("esp") &&
      forall j :: i < j < |devices| ==> arrays[devices[j]].volumeName != Some("esp")
  }

  lemma {:induction false} EspPartIsLast(arrays: Arrays, devices: seq<string>, name: string)
    requires Known(arrays, devices)
    ensures EspPart(arrays, devices) == Some(name) <==> LastEsp(arrays, devices, name)
  {
    if devices != [] {
      var before, last := devices[..|devices| - 1], devices[|devices| - 1];
      EspPartIsLast(arrays, before, name);
      if arrays[last].volumeName != Some("esp") {
        assert LastEsp(arrays, before, name) <==> LastEsp(arrays, devices, name) by {
          assert forall i :: 0 <= i < |before| ==> before[i] == devices[i];
        }
      } else {
        assert devices[|devices| - 1] == last;
      }
    }
  }

  /** The first skip-listed array on one of the disks of `name`, by its place. */
  predicate FirstSpares(arrays: Arrays, devices: seq<string>, skipList: set<string>, guard: string, name: string)
    requires Known(arrays, devices) && name in arrays
  {
    exists i :: 0 <= i < |devices| && devices[i] == guard && FirstAt(arrays, devices, skipList, name, i)
  }

  predicate FirstAt(arrays: Arrays, devices: seq<string>, skipList: set<string>, name: string, i: nat)
    requires Known(arrays, devices) && name in arrays && i < |devices|
  {
    && Spares(arrays, skipList, devices[i], name)
    && forall j :: 0 <= j < i ==> !Spares(arrays, skipList, devices[j], name)
  }

  lemma {:induction false} FirstAtMore(arrays: Arrays, before: seq<string>, last: string, skipList: set<string>,
      name: string, i: nat)
    requires Known(arrays, before + [last]) && name in arrays && i < |before|
    requires Known(arrays, before) && FirstAt(arrays, before, skipList, name, i)
    ensures FirstAt(arrays, before + [last], skipList, name, i)
  {
    assert forall j :: 0 <= j < i ==> (before + [last])[j] == before[j];
  }

  lemma {:induction false} FirstAtLast(arrays: Arrays, before: seq<string>, last: string, skipList: set<string>,
      name: string)
    requires Known(arrays, before + [last]) && name in arrays && Spares(arrays, skipList, last, name)
    requires Known(arrays, before) && FirstGuard(arrays, before, skipList, name).None?
    ensures FirstAt(arrays, before + [last], skipList, name, |before|)
  {
    assert forall j :: 0 <= j < |before| ==> (before + [last])[j] in before;
  }

  lemma {:induction false} FirstGuardIsFirst(arrays: Arrays, devices: seq<string>, skipList: set<string>, name: string)
    requires Known(arrays, devices) && name in arrays
    ensures var g := FirstGuard(arrays, devices, skipList, name);
            g.Some? ==> FirstSpares(arrays, devices, skipList, g.value, name)
  {
    if devices != [] {
      var before, last := devices[..|devices| - 1], devices[|devices| - 1];
      assert devices == before + [last];
      FirstGuardIsFirst(arrays, before, skipList, name);
      var g := FirstGuard(arrays, before, skipList, name);
      if g.Some? {
        var i :| 0 <= i < |before| && before[i] == g.value && FirstAt(arrays, before, skipList, name, i);
        FirstAtMore(arrays, before, last, skipList, name, i);
      } else if Spares(arrays, skipList, last, name) {
        FirstAtLast(arrays, before, last, skipList, name);
      }
    }
  }

  /** Reading the labels.  An array is deleted exactly when it is not on the skip list and none of its disks holds
      a skip-listed one; it is kept exactly when it is on the skip list, or is the last 'esp' array and one of its
      disks holds a skip-listed one; otherwise it is wiped.  The recorded cause is the first such array, if it is
      another one. */
  lemma {:induction false} LabelMeaning(arrays: Arrays, devices: seq<string>, skipList: set<string>,
      causes: map<string, Option<string>>, name: string)
    requires Known(arrays, devices) && name in devices && CausesOk(arrays, devices, devices, skipList, causes)
    ensures Label(arrays, devices, skipList, name) == Delete <==>
      !OnSkipList(arrays, skipList, name) && forall k :: k in devices ==> !Spares(arrays, skipList, k, name)
    ensures Label(arrays, devices, skipList, name) == Keep <==>
      OnSkipList(arrays, skipList, name) ||
      (LastEsp(arrays, devices, name) && exists k :: k in devices && Spares(arrays, skipList, k, name))
    ensures name in causes <==> exists k :: k != name && FirstSpares(arrays, devices, skipList, k, name)
    ensures name in causes ==>
      exists k :: k != name && FirstSpares(arrays, devices, skipList, k, name) && causes[name] == arrays[k].volumeName
    ensures Label(arrays, devices, skipList, name) == Wipe ==> name in causes
  {
    var g := FirstGuard(arrays, devices, skipList, name);
    EspPartIsLast(arrays, devices, name);
    FirstGuardIsFirst(arrays, devices, skipList, name);
    assert g.Some? ==> Spares(arrays, skipList, g.value, name);
    forall k | FirstSpares(arrays, devices, skipList, k, name) ensures g == Some(k) {
      OneFirst(arrays, devices, skipList, g, k, name);
    }
  }

  lemma {:induction false} OneFirst(arrays: Arrays, devices: seq<string>, skipList: set<string>, g: Option<string>,
      k: string, name: string)
    requires Known(arrays, devices) && name in arrays && g == FirstGuard(arrays, devices, skipList, name)
    requires FirstSpares(arrays, devices, skipList, k, name)
    ensures g == Some(k)
  {
    FirstGuardIsFirst(arrays, devices, skipList, name);
    var i :| 0 <= i < |devices| && devices[i] == k && FirstAt(arrays, devices, skipList, name, i);
    assert devices[i] in devices;
    var l :| 0 <= l < |devices| && devices[l] == g.value && FirstAt(arrays, devices, skipList, name, l);
    assert i <= l && l <= i;
  }
}
