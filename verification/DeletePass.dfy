/** One pass of deleting Software RAID arrays.  Commands are recorded, in order, instead of
    being run; what the examinations report and whether a removal succeeds is up to the
    environment and may differ from one moment to the next. */
module DeletePass {
  import opened Wrappers
  import opened RaidLabels
  import Names

  datatype Effect =
    | Wipefs(device: string)
    | StopArray(device: string)
    | Examine(device: string)
    | ZeroSuperblock(device: string)
    | RemovePartition(disk: string, number: string)

  datatype Examination = Superblock | NoSuperblock | Unreadable

  datatype Environment = Environment(
    examine: (string, nat) -> Examination,        // device, number of commands so far
    removes: (string, string, nat) -> bool)       // disk, partition number, number of commands so far

  type Labels = map<string, Action>

  function SpareComponents(arrays: Arrays, labels: Labels, name: string): set<string>
    requires name in arrays && name in labels
  {
    if labels[name] == Delete then {} else Elements(arrays[name].components)
  }

  /** The components of the arrays that are not deleted. */
  function Protected(arrays: Arrays, labels: Labels, devices: seq<string>): (s: set<string>)
    requires Known(arrays, devices) && Elements(devices) <= labels.Keys
  {
    if devices == [] then {} else
      Protected(arrays, labels, devices[..|devices| - 1]) + SpareComponents(arrays, labels, devices[|devices| - 1])
  }

  /** The holder disks of the arrays that have components. */
  function Holders(arrays: Arrays, devices: seq<string>): seq<string>
    requires Known(arrays, devices)
  {
    if devices == [] then [] else
      var last := arrays[devices[|devices| - 1]];
      Holders(arrays, devices[..|devices| - 1]) + if last.components == [] then [] else last.holders
  }

  predicate DeletedComponent(arrays: Arrays, labels: Labels, devices: seq<string>, c: string)
    requires Known(arrays, devices) && Elements(devices) <= labels.Keys
  {
    exists a :: a in devices && labels[a] == Delete && c in arrays[a].components
  }

  ghost predicate DeletedPartition(arrays: Arrays, labels: Labels, devices: seq<string>, disk: string, number: string)
    requires Known(arrays, devices) && Elements(devices) <= labels.Keys
  {
    exists c :: DeletedComponent(arrays, labels, devices, c) &&
      Names.SplitDeviceAndPartitionNumber(c) == Some((disk, number))
  }

  /** What the loop over the arrays may run. */
  predicate FirstEffect(arrays: Arrays, labels: Labels, devices: seq<string>, e: Effect)
    requires Known(arrays, devices) && Elements(devices) <= labels.Keys
  {
    match e
    case Wipefs(x) => x in devices && labels[x] != Keep && arrays[x].components != []
    case StopArray(x) => x in devices && labels[x] == Delete && arrays[x].components != []
    case Examine(c) => DeletedComponent(arrays, labels, devices, c)
    case ZeroSuperblock(c) => DeletedComponent(arrays, labels, devices, c)
    case RemovePartition(_, _) => false
  }

  /** The disks that are not wiped because of the protected components among `blocks`. */
  function Shielded(protectedDevices: set<string>, blocks: seq<string>): (s: set<string>)
    ensures forall b :: b in blocks && b in protectedDevices && Names.ExtractDevice(b).Some? ==>
      Names.ExtractDevice(b).value in s
  {
    if blocks == [] then {} else
      var d := Names.ExtractDevice(blocks[0]);
      Shielded(protectedDevices, blocks[1..]) + if blocks[0] in protectedDevices && d.Some? then {d.value} else {}
  }

  /** What the loop over the block devices may run. */
  ghost predicate SecondEffect(protectedDevices: set<string>, blocks: seq<string>, e: Effect) {
    (e.Examine? || e.ZeroSuperblock?) && e.device !in protectedDevices &&
    exists k :: 0 <= k < |blocks| && blocks[k] == e.device && e.device !in Shielded(protectedDevices, blocks[k..])
  }

  /** The device was examined during the pass, with this answer. */
  ghost predicate Reported(environment: Environment, log: seq<Effect>, device: string, answer: Examination) {
    exists t :: 0 <= t < |log| && log[t] == Examine(device) && environment.examine(device, t) == answer
  }

  lemma {:induction false} StaysReported(environment: Environment, log: seq<Effect>, more: seq<Effect>, device: string,
      answer: Examination)
    requires Reported(environment, log, device, answer) && log <= more
    ensures Reported(environment, more, device, answer)
  {
    var t :| 0 <= t < |log| && log[t] == Examine(device) && environment.examine(device, t) == answer;
    assert more[t] == log[t];
  }

  /** A block device that is neither protected nor shielded when its turn comes carries no superblock
      afterwards: it was examined without finding one, or it was zeroed. */
  ghost predicate Scanned(protectedDevices: set<string>, blocks: seq<string>, environment: Environment,
      log: seq<Effect>, k: nat)
    requires k < |blocks|
  {
    || blocks[k] in protectedDevices
    || blocks[k] in Shielded(protectedDevices, blocks[k..])
    || ZeroSuperblock(blocks[k]) in log
    || Reported(environment, log, blocks[k], NoSuperblock)
    || Reported(environment, log, blocks[k], Unreadable)
  }

  ghost predicate AllScanned(protectedDevices: set<string>, blocks: seq<string>, environment: Environment,
      log: seq<Effect>, from: nat)
  {
    forall k :: from <= k < |blocks| ==> Scanned(protectedDevices, blocks, environment, log, k)
  }

  lemma {:induction false} StaysScanned(protectedDevices: set<string>, blocks: seq<string>, environment: Environment,
      log: seq<Effect>, more: seq<Effect>, from: nat)
    requires AllScanned(protectedDevices, blocks, environment, log, from) && log <= more
    ensures AllScanned(protectedDevices, blocks, environment, more, from)
  {
    forall k | from <= k < |blocks| ensures Scanned(protectedDevices, blocks, environment, more, k) {
      assert Scanned(protectedDevices, blocks, environment, log, k);
      assert ZeroSuperblock(blocks[k]) in log ==> ZeroSuperblock(blocks[k]) in more;
      if answer :| answer in {NoSuperblock, Unreadable} && Reported(environment, log, blocks[k], answer) {
        StaysReported(environment, log, more, blocks[k], answer);
      }
    }
  }

  predicate HasDeleted(arrays: Arrays, labels: Labels, a: string, c: string) {
    a in labels && labels[a] == Delete && a in arrays && c in arrays[a].components
  }

  /** A deleted array that has the component is stopped. */
  ghost predicate Stopped(arrays: Arrays, labels: Labels, log: seq<Effect>, c: string) {
    exists a :: HasDeleted(arrays, labels, a, c) && StopArray(a) in log
  }

  /** Command t comes in its place: an array is wiped before it is stopped, and stopped before its components are
      examined; a superblock is removed right after an examination that found it. */
  ghost predicate InPlace(arrays: Arrays, labels: Labels, environment: Environment, log: seq<Effect>, t: nat)
    requires t < |log|
  {
    match log[t]
    case StopArray(a) => Wipefs(a) in log[..t]
    case Examine(c) => (exists a :: HasDeleted(arrays, labels, a, c)) ==> Stopped(arrays, labels, log[..t], c)
    case ZeroSuperblock(c) => t > 0 && log[t - 1] == Examine(c) && environment.examine(c, t - 1) == Superblock
    case _ => true
  }

  /** If command t is an examination that finds a superblock, its removal is next. */
  predicate FollowedUp(environment: Environment, log: seq<Effect>, t: nat)
    requires t < |log|
  {
    log[t].Examine? && environment.examine(log[t].device, t) == Superblock ==>
      t + 1 < |log| && log[t + 1] == ZeroSuperblock(log[t].device)
  }

  ghost predicate InOrder(arrays: Arrays, labels: Labels, environment: Environment, log: seq<Effect>) {
    forall t: nat :: t < |log| ==> InPlace(arrays, labels, environment, log, t) && FollowedUp(environment, log, t)
  }

  lemma {:induction false} Earlier(log: seq<Effect>, more: seq<Effect>, t: nat)
    requires t <= |log|
    ensures (log + more)[..t] == log[..t]
  {
  }

  /** One more command in its place, other than an examination that finds a superblock. */
  lemma {:induction false} OneInOrder(arrays: Arrays, labels: Labels, environment: Environment, log: seq<Effect>,
      e: Effect)
    requires InOrder(arrays, labels, environment, log)
    requires InPlace(arrays, labels, environment, log + [e], |log|) && FollowedUp(environment, log + [e], |log|)
    ensures InOrder(arrays, labels, environment, log + [e])
  {
    forall t: nat | t < |log|
      ensures InPlace(arrays, labels, environment, log + [e], t) && FollowedUp(environment, log + [e], t)
    {
      Earlier(log, [e], t);
      assert InPlace(arrays, labels, environment, log, t) && FollowedUp(environment, log, t);
    }
  }

  /** An examination that finds a superblock, and its removal. */
  lemma {:induction false} TwoInOrder(arrays: Arrays, labels: Labels, environment: Environment, log: seq<Effect>,
      c: string)
    requires InOrder(arrays, labels, environment, log) && environment.examine(c, |log|) == Superblock
    requires (exists a :: HasDeleted(arrays, labels, a, c)) ==> Stopped(arrays, labels, log, c)
    ensures InOrder(arrays, labels, environment, log + [Examine(c), ZeroSuperblock(c)])
  {
    var more := log + [Examine(c), ZeroSuperblock(c)];
    forall t: nat | t < |more|
      ensures InPlace(arrays, labels, environment, more, t) && FollowedUp(environment, more, t)
    {
      if t <= |log| { Earlier(log, [Examine(c), ZeroSuperblock(c)], t); }
      if t < |log| {
        assert InPlace(arrays, labels, environment, log, t) && FollowedUp(environment, log, t);
      } else if t == |log| {
        assert more[..t] == log;
      }
    }
  }

  /** From command n on every removal of a partition succeeded. */
  ghost predicate Removed(environment: Environment, log: seq<Effect>, n: nat) {
    forall t :: n <= t < |log| && log[t].RemovePartition? ==> environment.removes(log[t].disk, log[t].number, t)
  }

  /** Why a pass fails, always at its last command: a component of a deleted array could not be read, or could not
      be taken apart although there is a skip list, or the removal of a partition was refused. */
  ghost predicate FailedAt(arrays: Arrays, labels: Labels, environment: Environment, guarded: bool, log: seq<Effect>) {
    && log != []
    && var t := |log| - 1;
       match log[t]
       case Examine(c) => (exists a :: HasDeleted(arrays, labels, a, c)) && environment.examine(c, t) == Unreadable
       case ZeroSuperblock(c) =>
         guarded && (exists a :: HasDeleted(arrays, labels, a, c)) && Names.SplitDeviceAndPartitionNumber(c).None?
       case RemovePartition(disk, number) => !environment.removes(disk, number, t)
       case _ => false
  }

  class Pass {
    const arrays: Arrays
    const labels: Labels
    const environment: Environment
    const guarded: bool     // whether there is a skip list

    var allHolderDisks: seq<string>
    var doNotDeleteDevices: set<string>
    var deletePartitions: map<string, seq<string>>
    var doNotDeleteDisks: set<string>
    var log: seq<Effect>

    constructor (arrays: Arrays, labels: Labels, environment: Environment, guarded: bool)
      ensures this.arrays == arrays && this.labels == labels && this.environment == environment &&
        this.guarded == guarded
      ensures allHolderDisks == [] && doNotDeleteDevices == {} && deletePartitions == map[] &&
        doNotDeleteDisks == {} && log == []
    {
      this.arrays, this.labels, this.environment, this.guarded := arrays, labels, environment, guarded;
      allHolderDisks, doNotDeleteDevices, deletePartitions, doNotDeleteDisks, log := [], {}, map[], {}, [];
    }

    method Execute(e: Effect)
      modifies this`log
      ensures log == old(log) + [e]
    {
      log := log + [e];
    }

    /** The commands so far are in order. */
    ghost predicate Sound()
      reads this`log
    {
      InOrder(arrays, labels, environment, log)
    }

    /** The device may be examined now: if it is a component of deleted arrays, one of them is stopped. */
    ghost predicate Examinable(device: string)
      reads this`log
    {
      (exists a :: HasDeleted(arrays, labels, a, device)) ==> Stopped(arrays, labels, log, device)
    }

    /** Asks what a device carries, and removes a superblock that is found; the answer may depend on when it is
        asked. */
    method ExamineDevice(device: string) returns (answer: Examination)
      requires Sound() && Examinable(device)
      modifies this`log
      ensures Sound() && answer == environment.examine(device, |old(log)|)
      ensures log == old(log) + if answer == Superblock then [Examine(device), ZeroSuperblock(device)]
                                else [Examine(device)]
      ensures Reported(environment, log, device, answer)
    {
      ghost var before := log;
      answer := environment.examine(device, |log|);
      Execute(Examine(device));
      if answer == Superblock {
        Execute(ZeroSuperblock(device));
        TwoInOrder(arrays, labels, environment, before, device);
        assert log == before + [Examine(device), ZeroSuperblock(device)];
      } else {
        assert log[..|before|] == before;
        OneInOrder(arrays, labels, environment, before, Examine(device));
      }
      assert log[|before|] == Examine(device);
    }

    /** Whether a component is dealt with after this answer. */
    predicate Accepts(component: string, answer: Examination) {
      || answer == NoSuperblock
      || (answer == Superblock && (guarded ==> Names.SplitDeviceAndPartitionNumber(component).Some?))
    }

    /** Removes the superblock of one component and remembers its partition. */
    method DeleteComponent(component: string) returns (ok: bool)
      requires Sound() && Examinable(component)
      modifies this`log, this`deletePartitions
      ensures Sound()
      ensures var answer := environment.examine(component, |old(log)|);
              && log == old(log) + (if answer == Superblock then [Examine(component), ZeroSuperblock(component)]
                                    else [Examine(component)])
              && Reported(environment, log, component, answer)
              && (ok <==> Accepts(component, answer))
              && forall d, n :: n in Numbers(deletePartitions, d) <==>
                   n in Numbers(old(deletePartitions), d) ||
                   (guarded && answer == Superblock && Names.SplitDeviceAndPartitionNumber(component) == Some((d, n)))
    {
      var answer := ExamineDevice(component);
      match answer
      case NoSuperblock => return true;
      case Unreadable => return false;
      case Superblock =>
        if guarded {
          var split := Names.SplitDeviceAndPartitionNumber(component);
          if split.None? { return false; }
          var (device, number) := split.value;
          if device in deletePartitions {
            deletePartitions := deletePartitions[device := deletePartitions[device] + [number]];
          } else {
            deletePartitions := deletePartitions[device := [number]];
          }
        }
        return true;
    }

    /** The pass has failed. */
    ghost predicate Failed()
      reads this`log
    {
      FailedAt(arrays, labels, environment, guarded, log)
    }

    /** An examination during the pass found no superblock on the component, or it has been removed
        and its partition is remembered. */
    ghost predicate Dealt(component: string)
      reads this`log, this`deletePartitions
    {
      || Reported(environment, log, component, NoSuperblock)
      || (ZeroSuperblock(component) in log &&
          (guarded ==> var split := Names.SplitDeviceAndPartitionNumber(component);
                       split.Some? && split.value.1 in Numbers(deletePartitions, split.value.0)))
    }

    /** What the deletion of one array may run. */
    predicate OfArray(name: string, e: Effect)
      requires name in arrays
    {
      e == Wipefs(name) || e == StopArray(name) ||
        ((e.Examine? || e.ZeroSuperblock?) && e.device in arrays[name].components)
    }

    /** A partition number that belongs to a component of the array. */
    ghost predicate NumberOf(name: string, disk: string, number: string)
      requires name in arrays
    {
      exists c :: c in arrays[name].components && Names.SplitDeviceAndPartitionNumber(c) == Some((disk, number))
    }

    twostate lemma StaysDealt(component: string)
      requires old(log) <= log && forall d, n :: n in Numbers(old(deletePartitions), d) ==>
        n in Numbers(deletePartitions, d)
      requires old(Dealt(component))
      ensures Dealt(component)
    {
      if Reported(environment, old(log), component, NoSuperblock) {
        StaysReported(environment, old(log), log, component, NoSuperblock);
      } else {
        assert ZeroSuperblock(component) in log;
      }
    }

    twostate lemma StayDealt(components: seq<string>)
      requires old(log) <= log && forall d, n :: n in Numbers(old(deletePartitions), d) ==>
        n in Numbers(deletePartitions, d)
      requires forall c :: c in components ==> old(Dealt(c))
      ensures forall c :: c in components ==> Dealt(c)
    {
      forall c | c in components ensures Dealt(c) { StaysDealt(c); }
    }

    /** What the deletion of an array adds to the log and to the partitions that are remembered. */
    ghost predicate Extends(name: string, log0: seq<Effect>, log1: seq<Effect>, partitions0: map<string, seq<string>>,
                            partitions1: map<string, seq<string>>)
      requires name in arrays
    {
      && log0 <= log1
      && (forall e :: e in log1 ==> e in log0 || OfArray(name, e))
      && (forall d, n :: n in Numbers(partitions1, d) ==>
            n in Numbers(partitions0, d) || (guarded && NumberOf(name, d, n)))
      && (forall d, n :: n in Numbers(partitions0, d) ==> n in Numbers(partitions1, d))
    }

    lemma {:induction false} ExtendsTwice(name: string, log0: seq<Effect>, log1: seq<Effect>, log2: seq<Effect>,
        partitions0: map<string, seq<string>>, partitions1: map<string, seq<string>>,
        partitions2: map<string, seq<string>>)
      requires name in arrays
      requires Extends(name, log0, log1, partitions0, partitions1)
      requires Extends(name, log1, log2, partitions1, partitions2)
      ensures Extends(name, log0, log2, partitions0, partitions2)
    {
    }

    /** One round of the loop over the components. */
    method DeleteComponentOf(name: string, component: string) returns (ok: bool)
      requires HasDeleted(arrays, labels, name, component) && Sound() && StopArray(name) in log
      modifies this`log, this`deletePartitions
      ensures Extends(name, old(log), log, old(deletePartitions), deletePartitions) && Sound()
      ensures if ok then Dealt(component) else Failed()
    {
      ok := DeleteComponent(component);
    }

    /** The loop over the components. */
    method DeleteComponents(name: string) returns (ok: bool)
      requires name in arrays && name in labels && labels[name] == Delete && Sound() && StopArray(name) in log
      modifies this`log, this`deletePartitions
      ensures Extends(name, old(log), log, old(deletePartitions), deletePartitions) && Sound()
      ensures if ok then forall c :: c in arrays[name].components ==> Dealt(c) else Failed()
    {
      var components := arrays[name].components;
      for i := 0 to |components|
        invariant Extends(name, old(log), log, old(deletePartitions), deletePartitions) && Sound()
        invariant forall c :: c in components[..i] ==> Dealt(c)
      {
        ghost var log1, partitions1 := log, deletePartitions;
        label before:
        ok := DeleteComponentOf(name, components[i]);
        ExtendsTwice(name, old(log), log1, log, old(deletePartitions), partitions1, deletePartitions);
        if !ok { return; }
        StayDealt@before(components[..i]);
        assert components[..i + 1] == components[..i] + [components[i]];
      }
      assert components[..|components|] == components;
      ok := true;
    }

    /** Wipes and stops one array and removes its components' superblocks. */
    method DeleteArray(name: string) returns (ok: bool)
      requires name in arrays && name in labels && labels[name] == Delete && Sound()
      modifies this`log, this`deletePartitions
      ensures Extends(name, old(log), log, old(deletePartitions), deletePartitions) && Sound()
      ensures if ok then Wipefs(name) in log && StopArray(name) in log &&
                forall c :: c in arrays[name].components ==> Dealt(c)
              else Failed()
    {
      ghost var before := log;
      Execute(Wipefs(name));
      OneInOrder(arrays, labels, environment, before, Wipefs(name));
      ghost var wiped := log;
      Execute(StopArray(name));
      assert log[..|wiped|] == wiped && Wipefs(name) in wiped;
      OneInOrder(arrays, labels, environment, wiped, StopArray(name));
      ghost var begun := log;
      assert Wipefs(name) in begun && StopArray(name) in begun;
      ok := DeleteComponents(name);
    }

    /** The decisions the pass runs with cover the arrays. */
    ghost predicate Covers(devices: seq<string>) {
      Known(arrays, devices) && Elements(devices) <= labels.Keys
    }

    /** One array of the first loop. */
    method ProcessArray(name: string) returns (ok: bool)
      requires name in arrays && name in labels && Sound()
      modifies this`log, this`deletePartitions, this`allHolderDisks, this`doNotDeleteDevices
      ensures old(log) <= log && Sound() && (!ok ==> Failed())
      ensures forall e :: e in log ==> e in old(log) || FirstEffect(arrays, labels, [name], e)
      ensures forall d, n :: n in Numbers(deletePartitions, d) ==>
                n in Numbers(old(deletePartitions), d) || (guarded && DeletedPartition(arrays, labels, [name], d, n))
      ensures forall d, n :: n in Numbers(old(deletePartitions), d) ==> n in Numbers(deletePartitions, d)
      ensures allHolderDisks == old(allHolderDisks) + Holders(arrays, [name])
      ensures doNotDeleteDevices == old(doNotDeleteDevices) + SpareComponents(arrays, labels, name)
      ensures ok ==> Processed(name)
    {
      var components := arrays[name].components;
      ok := true;
      if components == [] { return; }
      assert Holders(arrays, [name]) == arrays[name].holders;
      allHolderDisks := allHolderDisks + arrays[name].holders;
      if labels[name] != Delete {
        doNotDeleteDevices := doNotDeleteDevices + set c | c in components;
        if labels[name] == Wipe {
          ghost var before := log;
          Execute(Wipefs(name));
          OneInOrder(arrays, labels, environment, before, Wipefs(name));
        }
      } else {
        ok := DeleteArray(name);
      }
    }

    /** An array that is not kept has been wiped, and one that is deleted has been stopped and
        its components dealt with. */
    ghost predicate Processed(name: string)
      reads this`log, this`deletePartitions
      requires name in arrays && name in labels
    {
      && (labels[name] != Keep && arrays[name].components != [] ==> Wipefs(name) in log)
      && (labels[name] == Delete && arrays[name].components != [] ==>
            StopArray(name) in log && forall c :: c in arrays[name].components ==> Dealt(c))
    }

    twostate lemma StaysProcessed(name: string)
      requires name in arrays && name in labels
      requires old(log) <= log && forall d, n :: n in Numbers(old(deletePartitions), d) ==>
        n in Numbers(deletePartitions, d)
      ensures old(Processed(name)) ==> Processed(name)
    {
      assert forall e :: e in old(log) ==> e in log;
      forall c | old(Dealt(c)) ensures Dealt(c) { StaysDealt(c); }
    }

    twostate lemma StayProcessed(devices: seq<string>)
      requires old(log) <= log && forall d, n :: n in Numbers(old(deletePartitions), d) ==>
        n in Numbers(deletePartitions, d)
      requires forall a :: a in devices ==> a in arrays && a in labels && old(Processed(a))
      ensures forall a :: a in devices ==> Processed(a)
    {
      forall a | a in devices ensures Processed(a) { StaysProcessed(a); }
    }

    /** What the first loop has run and remembered so far. */
    ghost predicate FirstSoFar(devices: seq<string>)
      reads this`log, this`deletePartitions
      requires Covers(devices)
    {
      && (forall e :: e in log ==> FirstEffect(arrays, labels, devices, e))
      && (forall d, n :: n in Numbers(deletePartitions, d) ==>
            guarded && DeletedPartition(arrays, labels, devices, d, n))
    }

    /** One round of the first loop. */
    method ProcessNext(devices: seq<string>, i: nat) returns (ok: bool)
      requires Covers(devices) && i < |devices| && Sound() && FirstSoFar(devices)
      modifies this`log, this`deletePartitions, this`allHolderDisks, this`doNotDeleteDevices
      ensures Sound() && FirstSoFar(devices) && (!ok ==> Failed())
      ensures old(log) <= log && forall d, n :: n in Numbers(old(deletePartitions), d) ==>
        n in Numbers(deletePartitions, d)
      ensures allHolderDisks == old(allHolderDisks) + Holders(arrays, [devices[i]])
      ensures doNotDeleteDevices == old(doNotDeleteDevices) + SpareComponents(arrays, labels, devices[i])
      ensures ok ==> Processed(devices[i])
    {
      ok := ProcessArray(devices[i]);
      LiftEffects(devices, i);
    }

    lemma {:induction false} LiftEffects(devices: seq<string>, i: nat)
      requires Covers(devices) && i < |devices|
      ensures forall e :: FirstEffect(arrays, labels, [devices[i]], e) ==> FirstEffect(arrays, labels, devices, e)
      ensures forall d, n :: DeletedPartition(arrays, labels, [devices[i]], d, n) ==>
        DeletedPartition(arrays, labels, devices, d, n)
    {
      forall c | DeletedComponent(arrays, labels, [devices[i]], c)
        ensures DeletedComponent(arrays, labels, devices, c)
      {
        assert devices[i] in devices;
      }
    }

    /** The first loop. */
    method ProcessArrays(devices: seq<string>) returns (ok: bool)
      requires Covers(devices) && log == [] && deletePartitions == map[] && allHolderDisks == [] &&
        doNotDeleteDevices == {}
      modifies this`log, this`deletePartitions, this`allHolderDisks, this`doNotDeleteDevices
      ensures Sound() && FirstSoFar(devices) && (!ok ==> Failed())
      ensures ok ==> allHolderDisks == Holders(arrays, devices)
      ensures ok ==> doNotDeleteDevices == Protected(arrays, labels, devices)
      ensures ok ==> forall a :: a in devices ==> Processed(a)
    {
      for i := 0 to |devices|
        invariant Sound() && FirstSoFar(devices)
        invariant allHolderDisks == Holders(arrays, devices[..i])
        invariant doNotDeleteDevices == Protected(arrays, labels, devices[..i])
        invariant forall a :: a in devices[..i] ==> Processed(a)
      {
        label before:
        ok := ProcessNext(devices, i);
        if !ok { return; }
        StayProcessed@before(devices[..i]);
        assert devices[..i + 1][..i] == devices[..i];
      }
      assert devices[..|devices|] == devices;
      ok := true;
    }

    /** One round of the second loop. */
    method ScanBlock(blocks: seq<string>, i: nat)
      requires i < |blocks| && Sound() && Examinable(blocks[i])
      requires doNotDeleteDisks == Shielded(doNotDeleteDevices, blocks[i + 1..])
      modifies this`log, this`doNotDeleteDisks
      ensures old(log) <= log && Sound() && doNotDeleteDisks == Shielded(doNotDeleteDevices, blocks[i..])
      ensures forall e :: e in log ==> e in old(log) || SecondEffect(doNotDeleteDevices, blocks, e)
      ensures Scanned(doNotDeleteDevices, blocks, environment, log, i)
    {
      var block := blocks[i];
      assert blocks[i..][1..] == blocks[i + 1..];
      if block in doNotDeleteDevices {
        var disk := Names.ExtractDevice(block);
        if disk.Some? { doNotDeleteDisks := doNotDeleteDisks + {disk.value}; }
      } else if block !in doNotDeleteDisks {
        assert SecondEffect(doNotDeleteDevices, blocks, Examine(block));
        assert SecondEffect(doNotDeleteDevices, blocks, ZeroSuperblock(block));
        var answer := ExamineDevice(block);
      }
    }

    /** The second loop, over all disks and partitions in reverse order. */
    method ScanBlocks(blocks: seq<string>)
      requires doNotDeleteDisks == {} && Sound() && forall b :: Examinable(b)
      modifies this`log, this`doNotDeleteDisks
      ensures old(log) <= log && Sound() && doNotDeleteDisks == Shielded(doNotDeleteDevices, blocks)
      ensures forall e :: e in log ==> e in old(log) || SecondEffect(doNotDeleteDevices, blocks, e)
      ensures AllScanned(doNotDeleteDevices, blocks, environment, log, 0)
    {
      var i := |blocks|;
      while i > 0
        invariant 0 <= i <= |blocks| && old(log) <= log && Sound()
        invariant AllScanned(doNotDeleteDevices, blocks, environment, log, i)
        invariant doNotDeleteDisks == Shielded(doNotDeleteDevices, blocks[i..])
        invariant forall e :: e in log ==> e in old(log) || SecondEffect(doNotDeleteDevices, blocks, e)
      {
        i := i - 1;
        ghost var before := log;
        StaysExaminable(blocks[i]);
        ScanBlock(blocks, i);
        StaysScanned(doNotDeleteDevices, blocks, environment, before, log, i + 1);
      }
      assert blocks[0..] == blocks;
    }

    twostate lemma StaysExaminable(device: string)
      requires old(log) <= log && old(Examinable(device))
      ensures Examinable(device)
    {
      assert forall e :: e in old(log) ==> e in log;
    }

    /** The third loop: the partition tables of the holder disks, each disk once. */
    method EraseTables() returns (ok: bool)
      requires Sound()
      modifies this`log
      ensures old(log) <= log && Sound() && (!ok ==> Failed())
      ensures ok ==> Removed(environment, log, |old(log)|)
      ensures forall e :: e in log ==> e in old(log) || ThirdEffect(e)
      ensures ok ==> forall h :: h in allHolderDisks ==> TableErased(h)
    {
      var disks := Unique(allHolderDisks);
      for i := 0 to |disks|
        invariant old(log) <= log && Sound() && Removed(environment, log, |old(log)|)
        invariant forall e :: e in log ==> e in old(log) || ThirdEffect(e)
        invariant forall h :: h in disks[..i] ==> TableErased(h)
      {
        var disk := disks[i];
        assert disks[..i + 1] == disks[..i] + [disk];
        if disk in doNotDeleteDisks {
          ok := RemovePartitions(disk);
          if !ok { return; }
        } else {
          ghost var before := log;
          Execute(Wipefs(disk));
          OneInOrder(arrays, labels, environment, before, Wipefs(disk));
        }
      }
      assert disks[..|disks|] == disks;
      ok := true;
    }

    method RemovePartitions(disk: string) returns (ok: bool)
      requires Sound()
      modifies this`log
      ensures old(log) <= log && Sound() && (!ok ==> Failed())
      ensures ok ==> Removed(environment, log, |old(log)|)
      ensures forall e :: e in log ==>
        e in old(log) || (e.RemovePartition? && e.disk == disk && e.number in Numbers(deletePartitions, disk))
      ensures ok ==> forall n :: n in Numbers(deletePartitions, disk) ==> RemovePartition(disk, n) in log
    {
      var numbers := Numbers(deletePartitions, disk);
      for j := 0 to |numbers|
        invariant old(log) <= log && Sound() && Removed(environment, log, |old(log)|)
        invariant forall e :: e in log ==>
          e in old(log) || (e.RemovePartition? && e.disk == disk && e.number in numbers)
        invariant forall n :: n in numbers[..j] ==> RemovePartition(disk, n) in log
      {
        ok := environment.removes(disk, numbers[j], |log|);
        ghost var before := log;
        Execute(RemovePartition(disk, numbers[j]));
        OneInOrder(arrays, labels, environment, before, RemovePartition(disk, numbers[j]));
        if !ok { return; }
      }
      ok := true;
    }

    predicate ThirdEffect(e: Effect)
      reads this`allHolderDisks, this`doNotDeleteDisks, this`deletePartitions
    {
      || (e.Wipefs? && e.device in allHolderDisks && e.device !in doNotDeleteDisks)
      || (e.RemovePartition? && e.disk in allHolderDisks && e.disk in doNotDeleteDisks &&
        e.number in Numbers(deletePartitions, e.disk))
    }

    predicate TableErased(disk: string)
      reads this`doNotDeleteDisks, this`deletePartitions, this`log
    {
      if disk in doNotDeleteDisks then forall n :: n in Numbers(deletePartitions, disk) ==>
        RemovePartition(disk, n) in log
      else Wipefs(disk) in log
    }
  }

  /** The elements in order of first occurrence. */
  function Unique(s: seq<string>): (r: seq<string>)
    ensures forall x :: x in r <==> x in s
    ensures forall i, j :: 0 <= i < j < |r| ==> r[i] != r[j]
  {
    if s == [] then [] else
      var earlier := Unique(s[..|s| - 1]);
      if s[|s| - 1] in earlier then earlier else earlier + [s[|s| - 1]]
  }

  function Numbers(partitions: map<string, seq<string>>, disk: string): seq<string> {
    if disk in partitions then partitions[disk] else []
  }

  // ----- The whole pass -----

  /** What a pass may run at all. */
  ghost predicate PassEffect(arrays: Arrays, labels: Labels, devices: seq<string>, blocks: seq<string>, e: Effect)
    requires Known(arrays, devices) && Elements(devices) <= labels.Keys
  {
    var spared := Protected(arrays, labels, devices);
    || FirstEffect(arrays, labels, devices, e)
    || SecondEffect(spared, blocks, e)
    || (e.Wipefs? && e.device in Holders(arrays, devices) && e.device !in Shielded(spared, blocks))
    || (e.RemovePartition? && e.disk in Shielded(spared, blocks) &&
      DeletedPartition(arrays, labels, devices, e.disk, e.number))
  }

  /** What a pass that succeeds has run: arrays that are not kept are wiped, deleted ones are
      stopped and their components rid of the superblock unless an examination during the pass
      found none, and so is every other block device that is neither protected nor shielded; disks
      that hold nothing protected are wiped, and from the other disks the deleted arrays'
      partitions are removed. */
  ghost predicate Complete(arrays: Arrays, labels: Labels, devices: seq<string>, blocks: seq<string>,
      environment: Environment,
                           guarded: bool, log: seq<Effect>)
    requires Known(arrays, devices) && Elements(devices) <= labels.Keys
  {
    var shielded := Shielded(Protected(arrays, labels, devices), blocks);
    && (forall a :: a in devices && arrays[a].components != [] && labels[a] != Keep ==> Wipefs(a) in log)
    && (forall a :: a in devices && arrays[a].components != [] && labels[a] == Delete ==> StopArray(a) in log)
    && (forall a, c :: a in devices && labels[a] == Delete && c in arrays[a].components ==>
          || Reported(environment, log, c, NoSuperblock)
          || (ZeroSuperblock(c) in log &&
              (guarded ==> var split := Names.SplitDeviceAndPartitionNumber(c);
                           split.Some? && (split.value.0 in Holders(arrays, devices) && split.value.0 in shielded ==>
                                             RemovePartition(split.value.0, split.value.1) in log))))
    && (forall h :: h in Holders(arrays, devices) && h !in shielded ==> Wipefs(h) in log)
    && AllScanned(Protected(arrays, labels, devices), blocks, environment, log, 0)
  }

  lemma {:induction false} CompleteFrom(pass: Pass, devices: seq<string>, blocks: seq<string>)
    requires pass.Covers(devices)
    requires pass.doNotDeleteDisks == Shielded(Protected(pass.arrays, pass.labels, devices), blocks)
    requires forall a :: a in devices ==> pass.Processed(a)
    requires forall h :: h in Holders(pass.arrays, devices) ==> pass.TableErased(h)
    requires AllScanned(Protected(pass.arrays, pass.labels, devices), blocks, pass.environment, pass.log, 0)
    ensures Complete(pass.arrays, pass.labels, devices, blocks, pass.environment, pass.guarded, pass.log)
  {
    forall a, c | a in devices && pass.labels[a] == Delete && c in pass.arrays[a].components
      ensures pass.Dealt(c)
    {
      assert pass.Processed(a);
    }
  }

  lemma {:induction false} EffectsFrom(pass: Pass, devices: seq<string>, blocks: seq<string>, e: Effect)
    requires pass.Covers(devices)
    requires pass.allHolderDisks == Holders(pass.arrays, devices)
    requires pass.doNotDeleteDisks == Shielded(Protected(pass.arrays, pass.labels, devices), blocks)
    requires forall d, n :: n in Numbers(pass.deletePartitions, d) ==>
      DeletedPartition(pass.arrays, pass.labels, devices, d, n)
    requires pass.ThirdEffect(e)
    ensures PassEffect(pass.arrays, pass.labels, devices, blocks, e)
  {
  }

  /** The three loops of the pass. */
  method RunPass(pass: Pass, devices: seq<string>, blocks: seq<string>) returns (ok: bool)
    requires pass.Covers(devices) && pass.labels.Keys == Elements(devices)
    requires pass.log == [] && pass.deletePartitions == map[] && pass.allHolderDisks == []
    requires pass.doNotDeleteDevices == {} && pass.doNotDeleteDisks == {}
    modifies pass
    ensures forall e :: e in pass.log ==> PassEffect(pass.arrays, pass.labels, devices, blocks, e)
    ensures ok ==> Complete(pass.arrays, pass.labels, devices, blocks, pass.environment, pass.guarded, pass.log)
    ensures pass.Sound() && if ok then Removed(pass.environment, pass.log, 0) else pass.Failed()
  {
    assert pass.Sound();
    ok := pass.ProcessArrays(devices);
    if !ok { return; }
    label processed:
    AllStopped(pass, devices);
    pass.ScanBlocks(blocks);
    ghost var scanned := pass.log;
    assert forall e :: e in scanned ==> !e.RemovePartition?;
    ok := pass.EraseTables();
    forall e | e in pass.log ensures PassEffect(pass.arrays, pass.labels, devices, blocks, e) {
      if pass.ThirdEffect(e) { EffectsFrom(pass, devices, blocks, e); }
    }
    if ok {
      pass.StayProcessed@processed(devices);
      StaysScanned(pass.doNotDeleteDevices, blocks, pass.environment, scanned, pass.log, 0);
      CompleteFrom(pass, devices, blocks);
      NoneRemoved(pass.environment, scanned, pass.log);
    }
  }

  lemma {:induction false} NoneRemoved(environment: Environment, scanned: seq<Effect>, log: seq<Effect>)
    requires scanned <= log && Removed(environment, log, |scanned|) && forall e :: e in scanned ==> !e.RemovePartition?
    ensures Removed(environment, log, 0)
  {
    assert forall t :: 0 <= t < |scanned| ==> log[t] == scanned[t];
  }

  /** After the first loop every component of a deleted array may be examined. */
  lemma {:induction false} AllStopped(pass: Pass, devices: seq<string>)
    requires pass.Covers(devices) && pass.labels.Keys == Elements(devices)
    requires forall a :: a in devices ==> pass.Processed(a)
    ensures forall c :: pass.Examinable(c)
  {
    forall c, a | HasDeleted(pass.arrays, pass.labels, a, c) ensures Stopped(pass.arrays, pass.labels, pass.log, c) {
      assert a in devices && pass.Processed(a);
    }
  }

  method DeleteConfigPass(arrays: Arrays, devices: seq<string>, skipList: Option<set<string>>, blocks: seq<string>,
      environment: Environment)
    returns (ok: bool, labels: Labels, log: seq<Effect>)
    requires Known(arrays, devices)
    ensures labels.Keys == Elements(devices)
    ensures forall n :: n in devices ==>
      labels[n] == if skipList.GetOr({}) == {} then Delete else Label(arrays, devices, skipList.value, n)
    ensures forall e :: e in log ==> PassEffect(arrays, labels, devices, blocks, e)
    ensures ok ==> Complete(arrays, labels, devices, blocks, environment, skipList.GetOr({}) != {}, log)
    ensures InOrder(arrays, labels, environment, log)
    ensures if ok then Removed(environment, log, 0)
            else FailedAt(arrays, labels, environment, skipList.GetOr({}) != {}, log)
  {
    var guarded := skipList.GetOr({}) != {};
    labels := map n | n in devices :: Delete;
    if guarded {
      var decisions := HandleRaidSkipList(arrays, devices, skipList.value);
      labels := decisions.deleteRaidDevices;
    }
    var pass := new Pass(arrays, labels, environment, guarded);
    ok := RunPass(pass, devices, blocks);
    log := pass.log;
  }

  // ----- Protection -----

  /** The reports agree with each other and with the list of disks and partitions: arrays share
      no component; a component is a listed partition, below a directory, that comes after its
      disk, and no array; a holder disk is the disk of a component and neither an array nor a component. */
  ghost predicate Consistent(arrays: Arrays, devices: seq<string>, blocks: seq<string>)
    requires Known(arrays, devices)
  {
    && (forall a, b, c :: a in devices && b in devices && c in arrays[a].components && c in arrays[b].components ==>
      a == b)
    && (forall a, c :: a in devices && c in arrays[a].components ==> ListedPartition(blocks, c))
    && (forall a, h :: a in devices && h in arrays[a].holders ==>
          (exists c :: HeldThrough(arrays, a, h, c)))
    && (forall a, h :: a in devices && h in arrays[a].holders ==> h !in devices)
    && (forall a, c :: a in devices && c in arrays[a].components ==> c !in devices)
    && (forall a, b, h :: a in devices && b in devices && h in arrays[a].holders ==> !HasComponent(arrays, b, h))
  }

  predicate HeldThrough(arrays: Arrays, a: string, h: string, c: string)
    requires a in arrays
  {
    c in arrays[a].components && Names.ExtractDevice(c) == Some(h)
  }

  predicate HasComponent(arrays: Arrays, a: string, c: string)
    requires a in arrays
  {
    c in arrays[a].components
  }

  ghost predicate ListedPartition(blocks: seq<string>, c: string) {
    && Names.Chomp(c) == c
    && Names.ExtractDevice(c).Some? && '/' in Names.ExtractDevice(c).value
    && c in blocks
    && forall j, k :: 0 <= j < |blocks| && 0 <= k < |blocks| ==>
      blocks[j] == c && blocks[k] == Names.ExtractDevice(c).value ==> k < j
  }

  lemma {:induction false} ProtectedHas(arrays: Arrays, labels: Labels, devices: seq<string>, a: string, c: string)
    requires Known(arrays, devices) && Elements(devices) <= labels.Keys
    requires a in devices && labels[a] != Delete && c in arrays[a].components
    ensures c in Protected(arrays, labels, devices)
  {
    var last := devices[|devices| - 1];
    if a != last {
      ProtectedHas(arrays, labels, devices[..|devices| - 1], a, c);
    }
  }

  /** A holder disk of an array that is not deleted is shielded, from before its turn on. */
  lemma {:induction false} HolderShielded(arrays: Arrays, labels: Labels, devices: seq<string>, blocks: seq<string>,
      a: string, h: string, k: nat)
    requires Known(arrays, devices) && Elements(devices) <= labels.Keys && Consistent(arrays, devices, blocks)
    requires a in devices && labels[a] != Delete && h in arrays[a].holders
    requires k == 0 || (k < |blocks| && blocks[k] == h)
    ensures k <= |blocks| && h in Shielded(Protected(arrays, labels, devices), blocks[k..])
  {
    var c :| HeldThrough(arrays, a, h, c);
    assert ListedPartition(blocks, c);
    ProtectedHas(arrays, labels, devices, a, c);
    var j :| 0 <= j < |blocks| && blocks[j] == c;
    assert blocks[k..][j - k] == c;
  }

  /** A pass over all arrays never harms an array that is kept or wiped: it is not stopped, and a
      kept one is not wiped; no component of it is wiped or loses its superblock, no disk holding it is
      wiped or loses its superblock as a whole, and every partition that is removed belongs to a deleted
      array and not to it. */
  lemma {:induction false} Protection(arrays: Arrays, labels: Labels, devices: seq<string>, blocks: seq<string>,
      e: Effect, a: string)
    requires Known(arrays, devices) && Elements(devices) <= labels.Keys && Consistent(arrays, devices, blocks)
    requires PassEffect(arrays, labels, devices, blocks, e)
    requires a in devices && labels[a] != Delete
    ensures e != StopArray(a) && (labels[a] == Keep ==> e != Wipefs(a))
    ensures e.ZeroSuperblock? ==> e.device !in arrays[a].components && e.device !in arrays[a].holders
    ensures e.Wipefs? ==> e.device !in arrays[a].components && e.device !in arrays[a].holders
    ensures e.RemovePartition? ==>
      DeletedPartition(arrays, labels, devices, e.disk, e.number) &&
      forall c :: c in arrays[a].components ==> Names.SplitDeviceAndPartitionNumber(c) != Some((e.disk, e.number))
  {
    match e
    case ZeroSuperblock(x) => NoSuperblockLost(arrays, labels, devices, blocks, x, a);
    case Wipefs(x) =>
      NoDiskWiped(arrays, labels, devices, blocks, x, a);
      if x in Holders(arrays, devices) {
        HolderOfSome(arrays, devices, x);
        assert !HasComponent(arrays, a, x);
      }
    case RemovePartition(disk, number) => OnlyDeletedPartitions(arrays, labels, devices, blocks, disk, number, a);
    case StopArray(_) =>
    case Examine(_) =>
  }

  /** If arrays share no components, a deleted one is wiped first, then stopped, then its components are examined. */
  lemma {:induction false} WipedThenStopped(arrays: Arrays, labels: Labels, environment: Environment, log: seq<Effect>,
      a: string, c: string, t: nat)
    returns (v: nat, u: nat)
    requires InOrder(arrays, labels, environment, log) && HasDeleted(arrays, labels, a, c)
    requires forall b :: HasDeleted(arrays, labels, b, c) ==> b == a
    requires t < |log| && log[t] in {Examine(c), ZeroSuperblock(c)}
    ensures v < u < t && log[v] == Wipefs(a) && log[u] == StopArray(a)
  {
    assert InPlace(arrays, labels, environment, log, t);
    var x := if log[t].Examine? then t else t - 1;
    assert InPlace(arrays, labels, environment, log, x) && Stopped(arrays, labels, log[..x], c);
    u :| 0 <= u < x && log[u] == StopArray(a);
    assert InPlace(arrays, labels, environment, log, u) && Wipefs(a) in log[..u];
    v :| 0 <= v < u && log[v] == Wipefs(a);
  }

  /** A holder disk is the holder of one of the arrays. */
  lemma {:induction false} HolderOfSome(arrays: Arrays, devices: seq<string>, h: string)
    requires Known(arrays, devices) && h in Holders(arrays, devices)
    ensures exists a :: a in devices && h in arrays[a].holders
  {
    var before := devices[..|devices| - 1];
    if h in Holders(arrays, before) { HolderOfSome(arrays, before, h); }
  }

  lemma {:induction false} NoDiskWiped(arrays: Arrays, labels: Labels, devices: seq<string>, blocks: seq<string>,
      x: string, a: string)
    requires Known(arrays, devices) && Elements(devices) <= labels.Keys && Consistent(arrays, devices, blocks)
    requires PassEffect(arrays, labels, devices, blocks, Wipefs(x))
    requires a in devices && labels[a] != Delete
    ensures x !in arrays[a].holders
  {
    assert blocks[0..] == blocks;
    if x in arrays[a].holders { HolderShielded(arrays, labels, devices, blocks, a, x, 0); }
  }

  lemma {:induction false} OnlyDeletedPartitions(arrays: Arrays, labels: Labels, devices: seq<string>,
      blocks: seq<string>, disk: string, number: string, a: string)
    requires Known(arrays, devices) && Elements(devices) <= labels.Keys && Consistent(arrays, devices, blocks)
    requires DeletedPartition(arrays, labels, devices, disk, number)
    requires a in devices && labels[a] != Delete
    ensures forall c :: c in arrays[a].components ==> Names.SplitDeviceAndPartitionNumber(c) != Some((disk, number))
  {
    var d :| DeletedComponent(arrays, labels, devices, d) &&
      Names.SplitDeviceAndPartitionNumber(d) == Some((disk, number));
    forall c | c in arrays[a].components ensures Names.SplitDeviceAndPartitionNumber(c) != Some((disk, number)) {
      assert ListedPartition(blocks, c) && ListedPartition(blocks, d);
      if Names.SplitDeviceAndPartitionNumber(c) == Some((disk, number)) { Names.SplitInjective(c, d); }
    }
  }

  lemma {:induction false} NoSuperblockLost(arrays: Arrays, labels: Labels, devices: seq<string>, blocks: seq<string>,
      x: string, a: string)
    requires Known(arrays, devices) && Elements(devices) <= labels.Keys && Consistent(arrays, devices, blocks)
    requires PassEffect(arrays, labels, devices, blocks, ZeroSuperblock(x))
    requires a in devices && labels[a] != Delete
    ensures x !in arrays[a].components && x !in arrays[a].holders
  {
    var spared := Protected(arrays, labels, devices);
    if x in arrays[a].components { ProtectedHas(arrays, labels, devices, a, x); }
    if DeletedComponent(arrays, labels, devices, x) {
      var b :| b in devices && labels[b] == Delete && x in arrays[b].components;
      assert b != a && HasComponent(arrays, b, x);
    } else {
      var k :| 0 <= k < |blocks| && blocks[k] == x && x !in Shielded(spared, blocks[k..]);
      if x in arrays[a].holders { HolderShielded(arrays, labels, devices, blocks, a, x, k); }
    }
  }

  // ----- Thoroughness -----

  lemma {:induction false} ProtectedMeaning(arrays: Arrays, labels: Labels, devices: seq<string>, c: string)
    requires Known(arrays, devices) && Elements(devices) <= labels.Keys
    ensures c in Protected(arrays, labels, devices) <==>
      exists a :: a in devices && labels[a] != Delete && HasComponent(arrays, a, c)
  {
    if devices != [] {
      var before, last := devices[..|devices| - 1], devices[|devices| - 1];
      assert devices == before + [last];
      ProtectedMeaning(arrays, labels, before, c);
      assert c in SpareComponents(arrays, labels, last) <==> labels[last] != Delete && HasComponent(arrays, last, c);
    }
  }

  lemma {:induction false} ShieldedMeaning(protectedDevices: set<string>, blocks: seq<string>, d: string)
    ensures d in Shielded(protectedDevices, blocks) <==>
      exists b :: b in blocks && b in protectedDevices && Names.ExtractDevice(b) == Some(d)
  {
    if blocks != [] {
      assert blocks == [blocks[0]] + blocks[1..];
      ShieldedMeaning(protectedDevices, blocks[1..], d);
    }
  }

  lemma {:induction false} HoldersMeaning(arrays: Arrays, devices: seq<string>, h: string)
    requires Known(arrays, devices)
    ensures h in Holders(arrays, devices) <==>
      exists a :: a in devices && arrays[a].components != [] && h in arrays[a].holders
  {
    if devices != [] {
      var before, last := devices[..|devices| - 1], devices[|devices| - 1];
      assert devices == before + [last];
      HoldersMeaning(arrays, before, h);
    }
  }

  /** Whether a disk holds a listed component of an array that is not deleted. */
  ghost predicate HoldsSpared(arrays: Arrays, labels: Labels, devices: seq<string>, blocks: seq<string>, disk: string)
    requires Known(arrays, devices) && Elements(devices) <= labels.Keys
  {
    exists a, c :: a in devices && labels[a] != Delete && HasComponent(arrays, a, c) && c in blocks &&
      Names.ExtractDevice(c) == Some(disk)
  }

  lemma {:induction false} ShieldedIsSpared(arrays: Arrays, labels: Labels, devices: seq<string>, blocks: seq<string>,
      d: string)
    requires Known(arrays, devices) && Elements(devices) <= labels.Keys
    ensures d in Shielded(Protected(arrays, labels, devices), blocks) <==>
      HoldsSpared(arrays, labels, devices, blocks, d)
  {
    var spared := Protected(arrays, labels, devices);
    ShieldedMeaning(spared, blocks, d);
    forall c ensures c in spared <==> exists a :: a in devices && labels[a] != Delete && HasComponent(arrays, a, c) {
      ProtectedMeaning(arrays, labels, devices, c);
    }
  }

  /** A pass that succeeds spares no more than it has to.  A holder disk is wiped unless it holds a component of an
      array that is not deleted, and from such a disk the partitions whose superblock was removed are removed. */
  lemma {:induction false} DiskErased(arrays: Arrays, labels: Labels, devices: seq<string>, blocks: seq<string>,
      environment: Environment, guarded: bool, log: seq<Effect>, a: string, h: string)
    requires Known(arrays, devices) && Elements(devices) <= labels.Keys
    requires Complete(arrays, labels, devices, blocks, environment, guarded, log)
    requires a in devices && arrays[a].components != [] && h in arrays[a].holders
    ensures !HoldsSpared(arrays, labels, devices, blocks, h) ==> Wipefs(h) in log
    ensures guarded && labels[a] == Delete && HoldsSpared(arrays, labels, devices, blocks, h) ==>
      forall c, n :: HasComponent(arrays, a, c) && Names.SplitDeviceAndPartitionNumber(c) == Some((h, n)) ==>
        Reported(environment, log, c, NoSuperblock) || RemovePartition(h, n) in log
  {
    ShieldedIsSpared(arrays, labels, devices, blocks, h);
    HoldersMeaning(arrays, devices, h);
  }

  /** Every block device is examined, and rid of a superblock, unless it is a component of an array that is not
      deleted, or the disk of a component that comes after it. */
  lemma {:induction false} BlockScanned(arrays: Arrays, labels: Labels, devices: seq<string>, blocks: seq<string>,
      environment: Environment, guarded: bool, log: seq<Effect>, k: nat)
    requires Known(arrays, devices) && Elements(devices) <= labels.Keys && k < |blocks|
    requires Complete(arrays, labels, devices, blocks, environment, guarded, log)
    ensures || ZeroSuperblock(blocks[k]) in log
            || Reported(environment, log, blocks[k], NoSuperblock)
            || Reported(environment, log, blocks[k], Unreadable)
            || (exists a :: a in devices && labels[a] != Delete && HasComponent(arrays, a, blocks[k]))
            || HoldsSpared(arrays, labels, devices, blocks[k..], blocks[k])
  {
    assert Scanned(Protected(arrays, labels, devices), blocks, environment, log, k);
    ProtectedMeaning(arrays, labels, devices, blocks[k]);
    ShieldedIsSpared(arrays, labels, devices, blocks[k..], blocks[k]);
  }
}
