/** Reconciling the existing arrays with the target when a skip list is set: which logical
    disks are not created again, and which existing arrays are an error. */
module Reconcile {
  import opened Wrappers
  import opened RaidLabels
  import opened RaidTarget

  /** The volume names of the arrays, in the order of the devices. */
  function Existing(arrays: Arrays, devices: seq<string>): (names: seq<string>)
    requires Known(arrays, devices)
    ensures |names| == |devices| && forall i :: 0 <= i < |names| ==> names[i] == arrays[devices[i]].volumeName.GetOr("")
  {
    if devices == [] then [] else
      Existing(arrays, devices[..|devices| - 1]) + [arrays[devices[|devices| - 1]].volumeName.GetOr("")]
  }

  function RemoveFirst(names: seq<string>, v: string): (r: seq<string>)
    ensures multiset(r) == multiset(names) - multiset{v}
    ensures forall u :: u in r ==> u in names
    ensures forall u :: u in names && u != v ==> u in r
  {
    if names == [] then []
    else if names[0] == v then assert names == [v] + names[1..]; names[1..]
    else assert names == [names[0]] + names[1..]; [names[0]] + RemoveFirst(names[1..], v)
  }

  /** The first device with a volume name. */
  function DeviceOf(arrays: Arrays, devices: seq<string>, v: string): (n: string)
    requires Known(arrays, devices) && v in Existing(arrays, devices)
    ensures n in devices && arrays[n].volumeName.GetOr("") == v
  {
    if arrays[devices[0]].volumeName.GetOr("") == v then devices[0]
    else
      var i :| 0 <= i < |devices| && Existing(arrays, devices)[i] == v;
      assert Existing(arrays, devices[1..])[i - 1] == v;
      DeviceOf(arrays, devices[1..], v)
  }

  /** The target's disks whose volume name exists. */
  function Matched(target: seq<LogicalDisk>, names: seq<string>): seq<LogicalDisk> {
    if target == [] then [] else
      var last := target[|target| - 1];
      Matched(target[..|target| - 1], names) +
      if last.volumeName.Some? && last.volumeName.value in names then [last] else []
  }

  function VolumeNames(disks: seq<LogicalDisk>): seq<string> {
    if disks == [] then [] else VolumeNames(disks[..|disks| - 1]) + [disks[|disks| - 1].volumeName.GetOr("")]
  }

  /** An existing array may be left in place: it is on the skip list, or wiped because of it. */
  predicate MayStay(arrays: Arrays, devices: seq<string>, skipList: set<string>, v: string)
    requires Known(arrays, devices) && v in Existing(arrays, devices)
  {
    v in skipList || Label(arrays, devices, skipList, DeviceOf(arrays, devices, v)) == Wipe
  }

  /** The volume names that no logical disk has to account for: a kept 'esp' that no logical
      disk is named after (or a second array of that name). */
  function KeptEsp(arrays: Arrays, devices: seq<string>, skipList: set<string>, target: seq<LogicalDisk>)
    : multiset<string>
    requires Known(arrays, devices)
  {
    var names := Existing(arrays, devices);
    assert forall v :: v in multiset(names) ==> v in names;
    EspAmong(arrays, devices, skipList, multiset(names) - multiset(VolumeNames(Matched(target, names))))
  }

  predicate Reconcilable(arrays: Arrays, devices: seq<string>, skipList: set<string>, target: seq<LogicalDisk>)
    requires Known(arrays, devices)
  {
    var names := Existing(arrays, devices);
    && "" !in names
    && AllStay(arrays, devices, skipList, Matched(target, names))
    && multiset(names) == multiset(VolumeNames(Matched(target, names))) + KeptEsp(arrays, devices, skipList, target)
  }

  lemma {:induction false} MatchedNames(target: seq<LogicalDisk>, names: seq<string>, v: string)
    ensures v in VolumeNames(Matched(target, names)) <==> v in names && HasVolume(target, v)
  {
    if target != [] {
      var before, last := target[..|target| - 1], target[|target| - 1];
      MatchedNames(before, names, v);
      var m := Matched(before, names);
      if last.volumeName.Some? && last.volumeName.value in names {
        assert (m + [last])[..|m|] == m;
        assert VolumeNames(Matched(target, names)) == VolumeNames(m) + [last.volumeName.value];
      } else {
        assert Matched(target, names) == m;
      }
      HasVolumeLast(target, v);
    }
  }

  lemma {:induction false} HasVolumeLast(target: seq<LogicalDisk>, v: string)
    requires target != []
    ensures HasVolume(target, v) <==> HasVolume(target[..|target| - 1], v) || target[|target| - 1].volumeName == Some(v)
  {
    var before := target[..|target| - 1];
    assert forall k :: 0 <= k < |before| ==> before[k] == target[k];
  }

  /** The decisions of the labelling answer the question whether an array may stay. */
  ghost predicate DecisionsFor(arrays: Arrays, devices: seq<string>, skipList: set<string>, decisions: Decisions)
    requires Known(arrays, devices)
  {
    && decisions.deleteRaidDevices == (map n | n in devices :: Label(arrays, devices, skipList, n))
    && CausesOk(arrays, devices, devices, skipList, decisions.causeOfNotDeleting)
  }

  lemma {:induction false} WipedHasCause(arrays: Arrays, devices: seq<string>, skipList: set<string>,
      decisions: Decisions, rd: string)
    requires Known(arrays, devices) && DecisionsFor(arrays, devices, skipList, decisions) && rd in devices
    ensures rd in decisions.deleteRaidDevices
    ensures decisions.deleteRaidDevices[rd] == Label(arrays, devices, skipList, rd)
    ensures decisions.deleteRaidDevices[rd] == Wipe ==>
      rd in decisions.causeOfNotDeleting && decisions.causeOfNotDeleting[rd].Some?
  {
  }

  /** One logical disk of the target: None for the error, otherwise whether it is matched. */
  method MatchOne(arrays: Arrays, devices: seq<string>, skipList: set<string>, disk: LogicalDisk, decisions: Decisions,
      listOfRaids: seq<string>)
    returns (r: Option<bool>)
    requires Known(arrays, devices) && DecisionsFor(arrays, devices, skipList, decisions)
    requires forall v :: v in listOfRaids ==> v in Existing(arrays, devices)
    ensures var listed := disk.volumeName.Some? && disk.volumeName.value in listOfRaids;
            r == if listed && !MayStay(arrays, devices, skipList, disk.volumeName.value) then None else Some(listed)
  {
    if disk.volumeName.None? || disk.volumeName.value !in listOfRaids { return Some(false); }
    var v := disk.volumeName.value;
    if v in skipList { return Some(true); }
    var rd := DeviceOf(arrays, devices, v);
    WipedHasCause(arrays, devices, skipList, decisions, rd);
    if decisions.deleteRaidDevices[rd] != Wipe || rd !in decisions.causeOfNotDeleting ||
      decisions.causeOfNotDeleting[rd].None? {
      return None;
    }
    return Some(true);
  }

  /** What has been matched so far, and what is left in the list. */
  ghost predicate MatchedSoFar(names: seq<string>, target: seq<LogicalDisk>, listOfRaids: seq<string>,
      rmFromList: seq<LogicalDisk>)
  {
    && rmFromList == Matched(target, names)
    && multiset(names) == multiset(listOfRaids) + multiset(VolumeNames(rmFromList))
    && (forall v :: v in listOfRaids ==> v in names)
    && (forall v :: v in names && !HasVolume(target, v) ==> v in listOfRaids)
  }

  lemma {:induction false} MatchedMore(names: seq<string>, before: seq<LogicalDisk>, disk: LogicalDisk,
      listOfRaids: seq<string>, rmFromList: seq<LogicalDisk>)
    requires MatchedSoFar(names, before, listOfRaids, rmFromList)
    requires disk.volumeName.Some? && disk.volumeName.value in listOfRaids
    ensures MatchedSoFar(names, before + [disk], RemoveFirst(listOfRaids, disk.volumeName.value), rmFromList + [disk])
  {
    var v, rest, target := disk.volumeName.value, RemoveFirst(listOfRaids, disk.volumeName.value), before + [disk];
    assert target[..|before|] == before;
    assert Matched(target, names) == rmFromList + [disk];
    assert (rmFromList + [disk])[..|rmFromList|] == rmFromList;
    assert multiset(listOfRaids) == multiset(rest) + multiset{v} by { assert v in multiset(listOfRaids); }
    forall u | u in names && !HasVolume(target, u) ensures u in rest { HasVolumeLast(target, u); }
  }

  lemma {:induction false} UnmatchedMore(names: seq<string>, before: seq<LogicalDisk>, disk: LogicalDisk,
      listOfRaids: seq<string>, rmFromList: seq<LogicalDisk>)
    requires MatchedSoFar(names, before, listOfRaids, rmFromList)
    requires disk.volumeName.Some? ==>
      !HasVolume(before, disk.volumeName.value) && disk.volumeName.value !in listOfRaids
    ensures MatchedSoFar(names, before + [disk], listOfRaids, rmFromList)
  {
    var target := before + [disk];
    assert target[..|before|] == before;
    forall u | u in names && !HasVolume(target, u) ensures u in listOfRaids { HasVolumeLast(target, u); }
  }

  predicate AllStay(arrays: Arrays, devices: seq<string>, skipList: set<string>, matched: seq<LogicalDisk>)
    requires Known(arrays, devices)
  {
    forall v :: v in VolumeNames(matched) ==> v in Existing(arrays, devices) && MayStay(arrays, devices, skipList, v)
  }

  method MatchTarget(arrays: Arrays, devices: seq<string>, skipList: set<string>, target: seq<LogicalDisk>,
      decisions: Decisions)
    returns (r: Option<(seq<string>, seq<LogicalDisk>)>)
    requires Known(arrays, devices) && DistinctVolumes(target) && DecisionsFor(arrays, devices, skipList, decisions)
    ensures r.Some? <==> AllStay(arrays, devices, skipList, Matched(target, Existing(arrays, devices)))
    ensures r.Some? ==> MatchedSoFar(Existing(arrays, devices), target, r.value.0, r.value.1)
  {
    var names := Existing(arrays, devices);
    var listOfRaids := names;
    var rmFromList: seq<LogicalDisk> := [];
    for i := 0 to |target|
      invariant MatchedSoFar(names, target[..i], listOfRaids, rmFromList)
      invariant AllStay(arrays, devices, skipList, rmFromList)
    {
      var disk := target[i];
      assert target[..i + 1] == target[..i] + [disk];
      var one := MatchOne(arrays, devices, skipList, disk, decisions, listOfRaids);
      if one.None? {
        MatchedNames(target, names, disk.volumeName.value);
        assert HasVolume(target, disk.volumeName.value);
        return None;
      }
      if one.value {
        AllStayMore(arrays, devices, skipList, rmFromList, disk);
        MatchedMore(names, target[..i], disk, listOfRaids, rmFromList);
        listOfRaids := RemoveFirst(listOfRaids, disk.volumeName.value);
        rmFromList := rmFromList + [disk];
      } else {
        UnmatchedMore(names, target[..i], disk, listOfRaids, rmFromList);
      }
    }
    assert target[..|target|] == target;
    return Some((listOfRaids, rmFromList));
  }

  lemma {:induction false} AllStayMore(arrays: Arrays, devices: seq<string>, skipList: set<string>,
      matched: seq<LogicalDisk>, disk: LogicalDisk)
    requires Known(arrays, devices) && AllStay(arrays, devices, skipList, matched)
    requires disk.volumeName.Some? && disk.volumeName.value in Existing(arrays, devices)
    requires MayStay(arrays, devices, skipList, disk.volumeName.value)
    ensures AllStay(arrays, devices, skipList, matched + [disk])
  {
    assert (matched + [disk])[..|matched|] == matched;
  }

  function EspAmong(arrays: Arrays, devices: seq<string>, skipList: set<string>, listOfRaids: multiset<string>)
    : multiset<string>
    requires Known(arrays, devices) && ("esp" in listOfRaids ==> "esp" in Existing(arrays, devices))
  {
    if "esp" in listOfRaids && Label(arrays, devices, skipList, DeviceOf(arrays, devices, "esp")) == Keep
    then multiset{"esp"} else multiset{}
  }

  method WithoutKeptEsp(arrays: Arrays, devices: seq<string>, skipList: set<string>, decisions: Decisions,
      listOfRaids: seq<string>)
    returns (left: seq<string>)
    requires Known(arrays, devices) && DecisionsFor(arrays, devices, skipList, decisions)
    requires forall v :: v in listOfRaids ==> v in Existing(arrays, devices)
    ensures multiset(left) == multiset(listOfRaids) - EspAmong(arrays, devices, skipList, multiset(listOfRaids))
  {
    left := listOfRaids;
    if "esp" in listOfRaids {
      var rd := DeviceOf(arrays, devices, "esp");
      WipedHasCause(arrays, devices, skipList, decisions, rd);
      if decisions.deleteRaidDevices[rd] == Keep { left := RemoveFirst(listOfRaids, "esp"); }
    }
  }

  lemma {:induction false} LeftOver(arrays: Arrays, devices: seq<string>, skipList: set<string>,
      target: seq<LogicalDisk>, listOfRaids: seq<string>, left: seq<string>)
    requires Known(arrays, devices)
    requires var names := Existing(arrays, devices);
             MatchedSoFar(names, target, listOfRaids, Matched(target, names))
    requires multiset(left) == multiset(listOfRaids) - EspAmong(arrays, devices, skipList, multiset(listOfRaids))
    ensures left == [] <==>
      multiset(Existing(arrays, devices)) ==
      multiset(VolumeNames(Matched(target, Existing(arrays, devices)))) + KeptEsp(arrays, devices, skipList, target)
  {
    var names := Existing(arrays, devices);
    var matched := multiset(VolumeNames(Matched(target, names)));
    var esp := EspAmong(arrays, devices, skipList, multiset(listOfRaids));
    assert multiset(listOfRaids) == multiset(names) - matched;
    assert KeptEsp(arrays, devices, skipList, target) == esp;
    EmptyLeft(multiset(names), matched, listOfRaids, esp, left);
  }

  lemma {:induction false} EmptyLeft(all: multiset<string>, matched: multiset<string>, rest: seq<string>,
      esp: multiset<string>, left: seq<string>)
    requires all == multiset(rest) + matched && esp <= multiset(rest) && multiset(left) == multiset(rest) - esp
    ensures left == [] <==> all == matched + esp
  {
    if left != [] {
      var v := left[0];
      assert v in multiset(left);
      assert all[v] > (matched + esp)[v];
    } else {
      assert multiset(rest) == esp;
    }
  }

  lemma {:induction false} NothingExists(arrays: Arrays, skipList: set<string>, target: seq<LogicalDisk>)
    ensures Reconcilable(arrays, [], skipList, target) && Matched(target, Existing(arrays, [])) == []
  {
    NoneMatched(target);
  }

  lemma {:induction false} NoneMatched(target: seq<LogicalDisk>)
    ensures Matched(target, []) == []
  {
    if target != [] { NoneMatched(target[..|target| - 1]); }
  }

  // ----- Conservation -----

  /** The logical disks that are still to be created: those that are not in the list. */
  function Remaining(target: seq<LogicalDisk>, rm: seq<LogicalDisk>): (r: seq<LogicalDisk>)
    ensures forall d :: d in r <==> d in target && d !in rm
  {
    if target == [] then [] else
      Remaining(target[..|target| - 1], rm) + if target[|target| - 1] in rm then [] else [target[|target| - 1]]
  }

  /** The disks that are still to be created keep their order. */
  lemma {:induction false} RemainingInOrder(target: seq<LogicalDisk>, more: seq<LogicalDisk>, rm: seq<LogicalDisk>)
    ensures Remaining(target + more, rm) == Remaining(target, rm) + Remaining(more, rm)
    decreases |more|
  {
    if more == [] {
      assert target + more == target;
    } else {
      var before, last := more[..|more| - 1], more[|more| - 1];
      assert target + more == target + before + [last] && more == before + [last];
      RemainingInOrder(target, before, rm);
      OneMoreDisk(target + before, last, [], rm);
      OneMoreDisk(before, last, [], rm);
    }
  }

  /** When creation does not raise, the existing arrays and the target agree: every logical
      disk is either matched or still to be created, the names of the matched ones and at most
      one kept 'esp' are the existing names with their multiplicities, no name is matched
      twice, and no name that is still to be created exists. */
  lemma {:induction false} Conservation(arrays: Arrays, devices: seq<string>, skipList: set<string>,
      target: seq<LogicalDisk>)
    requires Known(arrays, devices) && DistinctVolumes(target) && (forall d :: d in target ==> d.volumeName.Some?)
    requires Reconcilable(arrays, devices, skipList, target)
    ensures var names := Existing(arrays, devices);
            var rm := Matched(target, names);
            && multiset(names) == multiset(VolumeNames(rm)) + KeptEsp(arrays, devices, skipList, target)
            && KeptEsp(arrays, devices, skipList, target) <= multiset{"esp"}
            && multiset(target) == multiset(rm) + multiset(Remaining(target, rm))
    ensures var names := Existing(arrays, devices);
            forall d :: d in Remaining(target, Matched(target, names)) ==> d.volumeName.GetOr("") !in names
    ensures forall v :: multiset(VolumeNames(Matched(target, Existing(arrays, devices))))[v] <= 1
  {
    var names := Existing(arrays, devices);
    MatchedElements(target, names);
    RemainingIs(target, names, Matched(target, names));
    forall v ensures multiset(VolumeNames(Matched(target, names)))[v] <= 1 { MatchedOnce(target, names, v); }
  }

  lemma {:induction false} MatchedElements(target: seq<LogicalDisk>, names: seq<string>)
    ensures forall d :: d in Matched(target, names) <==>
      d in target && d.volumeName.Some? && d.volumeName.value in names
  {
    if target != [] {
      var before := target[..|target| - 1];
      MatchedElements(before, names);
      assert target == before + [target[|target| - 1]];
    }
  }

  predicate Exists(disk: LogicalDisk, names: seq<string>) {
    disk.volumeName.Some? && disk.volumeName.value in names
  }

  lemma {:induction false} Snoc<T>(s: seq<T>, x: T)
    ensures multiset(s + [x]) == multiset(s) + multiset{x} && (s + [x])[..|s|] == s && (s + [x])[|s|] == x
  {
  }

  lemma {:induction false} OneMoreDisk(before: seq<LogicalDisk>, last: LogicalDisk, names: seq<string>,
      rm: seq<LogicalDisk>)
    ensures Matched(before + [last], names) == Matched(before, names) + if Exists(last, names) then [last] else []
    ensures Remaining(before + [last], rm) == Remaining(before, rm) + if last in rm then [] else [last]
  {
    assert (before + [last])[..|before|] == before;
  }

  lemma {:induction false} RemainingMore(before: seq<LogicalDisk>, last: LogicalDisk, names: seq<string>,
      rm: seq<LogicalDisk>)
    requires multiset(before) == multiset(Matched(before, names)) + multiset(Remaining(before, rm))
    requires last in rm <==> Exists(last, names)
    ensures multiset(before + [last]) ==
      multiset(Matched(before + [last], names)) + multiset(Remaining(before + [last], rm))
  {
    OneMoreDisk(before, last, names, rm);
    var m, r := Matched(before, names), Remaining(before, rm);
    if Exists(last, names) { Split(before, m, r, last); } else { Split(before, r, m, last); }
  }

  lemma {:induction false} RemainingIs(target: seq<LogicalDisk>, names: seq<string>, rm: seq<LogicalDisk>)
    requires forall i :: 0 <= i < |target| ==> (target[i] in rm <==> Exists(target[i], names))
    ensures multiset(target) == multiset(Matched(target, names)) + multiset(Remaining(target, rm))
  {
    if target == [] {
    } else {
      var before, last := target[..|target| - 1], target[|target| - 1];
      RemainingIs(before, names, rm);
      RemainingMore(before, last, names, rm);
      assert target == before + [last];
    }
  }

  lemma {:induction false} Split<T>(s: seq<T>, a: seq<T>, b: seq<T>, x: T)
    requires multiset(s) == multiset(a) + multiset(b)
    ensures multiset(s + [x]) == multiset(a + [x]) + multiset(b + [])
  {
    Snoc(s, x);
    Snoc(a, x);
    assert b + [] == b;
  }

  /** A name is matched by exactly one logical disk if it exists and the target has it, by none otherwise. */
  lemma {:induction false} MatchedOnce(target: seq<LogicalDisk>, names: seq<string>, v: string)
    requires DistinctVolumes(target)
    ensures multiset(VolumeNames(Matched(target, names)))[v] == if v in names && HasVolume(target, v) then 1 else 0
  {
    MatchedNames(target, names, v);
    AtMostOnce(target, names, v);
    assert v in VolumeNames(Matched(target, names)) <==> v in multiset(VolumeNames(Matched(target, names)));
  }

  lemma {:induction false} AtMostOnce(target: seq<LogicalDisk>, names: seq<string>, v: string)
    requires DistinctVolumes(target)
    ensures multiset(VolumeNames(Matched(target, names)))[v] <= 1
  {
    if target != [] {
      var before, last := target[..|target| - 1], target[|target| - 1];
      AtMostOnce(before, names, v);
      var m := Matched(before, names);
      if Exists(last, names) {
        Snoc(m, last);
        Snoc(VolumeNames(m), last.volumeName.value);
        assert VolumeNames(Matched(target, names)) == VolumeNames(m) + [last.volumeName.value];
        if last.volumeName == Some(v) { FreshName(target, names, v); }
      } else {
        assert Matched(target, names) == m;
      }
    }
  }

  lemma {:induction false} FreshName(target: seq<LogicalDisk>, names: seq<string>, v: string)
    requires target != [] && DistinctVolumes(target) && target[|target| - 1].volumeName == Some(v)
    ensures v !in multiset(VolumeNames(Matched(target[..|target| - 1], names)))
  {
    MatchedNames(target[..|target| - 1], names, v);
  }

  /** No existing array that creation accepts was to be deleted; every one other than an 'esp' has its
      volume name to itself and is named in the target. */
  lemma {:induction false} NothingDeleted(arrays: Arrays, devices: seq<string>, skipList: set<string>,
      target: seq<LogicalDisk>, n: string)
    requires Known(arrays, devices) && DistinctVolumes(target) && n in devices
    requires forall i, j :: 0 <= i < j < |devices| ==> devices[i] != devices[j]
    requires Reconcilable(arrays, devices, skipList, target)
    ensures Label(arrays, devices, skipList, n) != Delete
    ensures arrays[n].volumeName != Some("esp") ==>
      && arrays[n].volumeName.Some? && HasVolume(target, arrays[n].volumeName.value)
      && forall m :: m in devices && m != n ==> arrays[m].volumeName != arrays[n].volumeName
  {
    var i :| 0 <= i < |devices| && devices[i] == n;
    var names := Existing(arrays, devices);
    assert names[i] in names;
    if arrays[n].volumeName != Some("esp") {
      AccountedFor(arrays, devices, skipList, target, i);
      OnlyOne(arrays, devices, i);
    } else if "esp" !in skipList {
      EspAccountedFor(arrays, devices, skipList, target);
      OnlyOne(arrays, devices, i);
    }
  }

  /** A name that occurs once has one device. */
  lemma {:induction false} OnlyOne(arrays: Arrays, devices: seq<string>, i: nat)
    requires Known(arrays, devices) && i < |devices| && Existing(arrays, devices)[i] != ""
    requires multiset(Existing(arrays, devices))[Existing(arrays, devices)[i]] == 1
    ensures Existing(arrays, devices)[i] in Existing(arrays, devices)
    ensures DeviceOf(arrays, devices, Existing(arrays, devices)[i]) == devices[i]
    ensures forall m :: m in devices && m != devices[i] ==> arrays[m].volumeName != arrays[devices[i]].volumeName
  {
    var names := Existing(arrays, devices);
    forall m | m in devices && arrays[m].volumeName.GetOr("") == names[i] ensures m == devices[i] {
      var j :| 0 <= j < |devices| && devices[j] == m;
      SamePlace(names, i, j);
    }
    assert names[i] in names;
  }

  /** An 'esp' that is not on the skip list is matched and wiped, or kept; there is only one of them. */
  lemma {:induction false} EspAccountedFor(arrays: Arrays, devices: seq<string>, skipList: set<string>,
      target: seq<LogicalDisk>)
    requires Known(arrays, devices) && DistinctVolumes(target) && Reconcilable(arrays, devices, skipList, target)
    requires "esp" in Existing(arrays, devices) && "esp" !in skipList
    ensures multiset(Existing(arrays, devices))["esp"] == 1
    ensures Label(arrays, devices, skipList, DeviceOf(arrays, devices, "esp")) != Delete
  {
    var names := Existing(arrays, devices);
    var matched := VolumeNames(Matched(target, names));
    assert "esp" in multiset(names);
    AtMostOnce(target, names, "esp");
    assert "esp" in matched <==> "esp" in multiset(matched);
  }

  lemma {:induction false} AccountedFor(arrays: Arrays, devices: seq<string>, skipList: set<string>,
      target: seq<LogicalDisk>, i: nat)
    requires Known(arrays, devices) && DistinctVolumes(target) && i < |devices|
    requires Reconcilable(arrays, devices, skipList, target) && arrays[devices[i]].volumeName != Some("esp")
    ensures var v := Existing(arrays, devices)[i];
            && v != "" && arrays[devices[i]].volumeName == Some(v)
            && HasVolume(target, v) && multiset(Existing(arrays, devices))[v] == 1
            && MayStay(arrays, devices, skipList, v)
  {
    var names := Existing(arrays, devices);
    var v := names[i];
    assert v in names && v in multiset(names);
    assert v !in KeptEsp(arrays, devices, skipList, target);
    assert v in multiset(VolumeNames(Matched(target, names)));
    MatchedNames(target, names, v);
    MatchedOnce(target, names, v);
  }

  lemma {:induction false} SamePlace(names: seq<string>, i: nat, j: nat)
    requires i < |names| && j < |names| && names[i] == names[j] && multiset(names)[names[i]] == 1
    ensures i == j
  {
    if i < j { TwoOccurrences(names, i, j); } else if j < i { TwoOccurrences(names, j, i); }
  }

  lemma {:induction false} TwoOccurrences(names: seq<string>, i: nat, j: nat)
    requires i < j < |names| && names[i] == names[j]
    ensures multiset(names)[names[i]] >= 2
  {
    assert names == names[..j] + names[j..];
    assert names[..j][i] in multiset(names[..j]) && names[j..][0] in multiset(names[j..]);
  }

  // ----- Exactly when nothing is in the way -----

  /** How many arrays may be called 'esp': besides one that the target has and the skip list allows, one that is
      kept without being in the target, or that is on the skip list as well. */
  predicate EspExpected(skipList: set<string>, target: seq<LogicalDisk>, count: nat) {
    if "esp" in skipList then count <= (if HasVolume(target, "esp") then 2 else 1)
    else count == 0 || (count == 1 && !HasVolume(target, "esp"))
  }

  /** No array was to be deleted, all have volume names, and every name other than 'esp' is that of one array and
      is in the target. */
  predicate NothingInTheWay(arrays: Arrays, devices: seq<string>, skipList: set<string>, target: seq<LogicalDisk>)
    requires Known(arrays, devices)
  {
    var names := Existing(arrays, devices);
    && (forall n :: n in devices ==> Label(arrays, devices, skipList, n) != Delete)
    && (forall v :: v in names ==> v != "" && (v != "esp" ==> multiset(names)[v] == 1 && HasVolume(target, v)))
    && EspExpected(skipList, target, multiset(names)["esp"])
  }

  /** Creation does not raise exactly when nothing is in the way. */
  lemma {:induction false} AcceptedExactly(arrays: Arrays, devices: seq<string>, skipList: set<string>,
      target: seq<LogicalDisk>)
    requires Known(arrays, devices) && DistinctVolumes(target)
    requires forall i, j :: 0 <= i < j < |devices| ==> devices[i] != devices[j]
    ensures Reconcilable(arrays, devices, skipList, target) <==> NothingInTheWay(arrays, devices, skipList, target)
  {
    if Reconcilable(arrays, devices, skipList, target) { Needed(arrays, devices, skipList, target); }
    if NothingInTheWay(arrays, devices, skipList, target) { Enough(arrays, devices, skipList, target); }
  }

  lemma {:induction false} Needed(arrays: Arrays, devices: seq<string>, skipList: set<string>,
      target: seq<LogicalDisk>)
    requires Known(arrays, devices) && DistinctVolumes(target)
    requires forall i, j :: 0 <= i < j < |devices| ==> devices[i] != devices[j]
    requires Reconcilable(arrays, devices, skipList, target)
    ensures NothingInTheWay(arrays, devices, skipList, target)
  {
    var names := Existing(arrays, devices);
    forall n | n in devices ensures Label(arrays, devices, skipList, n) != Delete {
      NothingDeleted(arrays, devices, skipList, target, n);
    }
    forall v | v in names && v != "esp" ensures multiset(names)[v] == 1 && HasVolume(target, v) {
      var i :| 0 <= i < |names| && names[i] == v;
      AccountedFor(arrays, devices, skipList, target, i);
    }
    EspNeeded(arrays, devices, skipList, target);
  }

  lemma {:induction false} EspNeeded(arrays: Arrays, devices: seq<string>, skipList: set<string>,
      target: seq<LogicalDisk>)
    requires Known(arrays, devices) && DistinctVolumes(target) && Reconcilable(arrays, devices, skipList, target)
    ensures EspExpected(skipList, target, multiset(Existing(arrays, devices))["esp"])
  {
    var names := Existing(arrays, devices);
    MatchedOnce(target, names, "esp");
    MatchedNames(target, names, "esp");
    assert "esp" in names <==> multiset(names)["esp"] > 0;
    if "esp" in names && "esp" !in skipList {
      EspAccountedFor(arrays, devices, skipList, target);
      OnlyEspIsKept(arrays, devices, skipList);
    }
  }

  /** The only 'esp' is never wiped, unless it is on the skip list. */
  lemma {:induction false} OnlyEspIsKept(arrays: Arrays, devices: seq<string>, skipList: set<string>)
    requires Known(arrays, devices) && "esp" in Existing(arrays, devices)
    requires multiset(Existing(arrays, devices))["esp"] == 1
    ensures Label(arrays, devices, skipList, DeviceOf(arrays, devices, "esp")) != Wipe
  {
    var names := Existing(arrays, devices);
    var n := DeviceOf(arrays, devices, "esp");
    var e := EspPart(arrays, devices);
    assert e.Some?;
    var i :| 0 <= i < |devices| && devices[i] == n;
    var j :| 0 <= j < |devices| && devices[j] == e.value;
    SamePlace(names, i, j);
  }

  lemma {:induction false} Enough(arrays: Arrays, devices: seq<string>, skipList: set<string>,
      target: seq<LogicalDisk>)
    requires Known(arrays, devices) && DistinctVolumes(target)
    requires NothingInTheWay(arrays, devices, skipList, target)
    ensures Reconcilable(arrays, devices, skipList, target)
  {
    var names := Existing(arrays, devices);
    var matched := VolumeNames(Matched(target, names));
    forall v | v in matched ensures v in names && MayStay(arrays, devices, skipList, v) {
      MatchedNames(target, names, v);
      Stays(arrays, devices, skipList, target, v);
    }
    var esp := KeptEsp(arrays, devices, skipList, target);
    forall v ensures multiset(names)[v] == (multiset(matched) + esp)[v] {
      if v == "esp" { EspEnough(arrays, devices, skipList, target); } else {
        OthersEnough(arrays, devices, skipList, target, v);
      }
    }
    SameCounts(multiset(names), multiset(matched) + esp);
  }

  lemma {:induction false} SameCounts(a: multiset<string>, b: multiset<string>)
    requires forall v :: a[v] == b[v]
    ensures a == b
  {
  }

  lemma {:induction false} OthersEnough(arrays: Arrays, devices: seq<string>, skipList: set<string>,
      target: seq<LogicalDisk>, v: string)
    requires Known(arrays, devices) && DistinctVolumes(target) && v != "esp"
    requires NothingInTheWay(arrays, devices, skipList, target)
    ensures multiset(Existing(arrays, devices))[v] ==
      multiset(VolumeNames(Matched(target, Existing(arrays, devices))))[v] +
      KeptEsp(arrays, devices, skipList, target)[v]
  {
    var names := Existing(arrays, devices);
    MatchedOnce(target, names, v);
    assert v in names <==> v in multiset(names);
  }

  lemma {:induction false} Stays(arrays: Arrays, devices: seq<string>, skipList: set<string>,
      target: seq<LogicalDisk>, v: string)
    requires Known(arrays, devices) && NothingInTheWay(arrays, devices, skipList, target)
    requires v in Existing(arrays, devices) && HasVolume(target, v)
    ensures MayStay(arrays, devices, skipList, v)
  {
    var n := DeviceOf(arrays, devices, v);
    assert Label(arrays, devices, skipList, n) != Delete;
    assert "esp" in Existing(arrays, devices) <==> multiset(Existing(arrays, devices))["esp"] > 0;
  }

  lemma {:induction false} KeptEspIs(arrays: Arrays, devices: seq<string>, skipList: set<string>,
      target: seq<LogicalDisk>)
    requires Known(arrays, devices)
    ensures var names := Existing(arrays, devices);
            KeptEsp(arrays, devices, skipList, target)["esp"] ==
            if multiset(names)["esp"] > multiset(VolumeNames(Matched(target, names)))["esp"] && "esp" in names &&
              Label(arrays, devices, skipList, DeviceOf(arrays, devices, "esp")) == Keep then 1 else 0
  {
    assert "esp" in Existing(arrays, devices) <==> multiset(Existing(arrays, devices))["esp"] > 0;
  }

  lemma {:induction false} EspIsKept(arrays: Arrays, devices: seq<string>, skipList: set<string>,
      target: seq<LogicalDisk>)
    requires Known(arrays, devices) && NothingInTheWay(arrays, devices, skipList, target)
    requires "esp" in Existing(arrays, devices)
    ensures Label(arrays, devices, skipList, DeviceOf(arrays, devices, "esp")) == Keep
  {
    assert multiset(Existing(arrays, devices))["esp"] > 0;
    if "esp" !in skipList { OnlyEspIsKept(arrays, devices, skipList); }
  }

  lemma {:induction false} EspEnough(arrays: Arrays, devices: seq<string>, skipList: set<string>,
      target: seq<LogicalDisk>)
    requires Known(arrays, devices) && DistinctVolumes(target)
    requires NothingInTheWay(arrays, devices, skipList, target)
    ensures multiset(Existing(arrays, devices))["esp"] ==
      multiset(VolumeNames(Matched(target, Existing(arrays, devices))))["esp"] +
      KeptEsp(arrays, devices, skipList, target)["esp"]
  {
    var names := Existing(arrays, devices);
    MatchedOnce(target, names, "esp");
    assert "esp" in names <==> multiset(names)["esp"] > 0;
    KeptEspIs(arrays, devices, skipList, target);
    if "esp" in names { EspIsKept(arrays, devices, skipList, target); }
  }

  /** The disks of the target not to be created, or None for the errors.  The list of the block devices
      holds each of them once. */
  method CreateRaidIgnoreList(arrays: Arrays, devices: seq<string>, skipList: set<string>, target: seq<LogicalDisk>)
    returns (r: Option<seq<LogicalDisk>>)
    requires Known(arrays, devices) && DistinctVolumes(target)
    requires forall i, j :: 0 <= i < j < |devices| ==> devices[i] != devices[j]
    ensures r.Some? <==> NothingInTheWay(arrays, devices, skipList, target)
    ensures r.Some? <==> Reconcilable(arrays, devices, skipList, target)
    ensures r.Some? ==> r.value == Matched(target, Existing(arrays, devices))
  {
    AcceptedExactly(arrays, devices, skipList, target);
    var names := Existing(arrays, devices);
    if devices == [] {
      NothingExists(arrays, skipList, target);
      return Some([]);
    }
    var decisions := HandleRaidSkipList(arrays, devices, skipList);
    if "" in names { return None; }
    var matched := MatchTarget(arrays, devices, skipList, target, decisions);
    if matched.None? { return None; }
    var (listOfRaids, rmFromList) := matched.value;
    var left := WithoutKeptEsp(arrays, devices, skipList, decisions, listOfRaids);
    LeftOver(arrays, devices, skipList, target, listOfRaids, left);
    if left != [] { return None; }
    return Some(rmFromList);
  }
}
