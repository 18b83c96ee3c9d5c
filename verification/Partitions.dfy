/** Building and committing a partition table. */
module Partitions {
  import opened Wrappers
  import Names

  datatype Partition = Partition(size: nat, partType: string, fsType: string, bootFlag: Option<string>,
      extraFlags: seq<string>)

  /** One command handed to parted. */
  datatype Command =
    | Mklabel(diskLabel: string)
    | Mkpart(partType: string, fsType: string, start: nat, end: nat)
    | SetFlag(number: nat, flag: string)

  /** Where the partition after these starts, in MiB: the first MiB is left free. */
  function Start(partitions: seq<Partition>): nat {
    if partitions == [] then 1 else Start(partitions[..|partitions| - 1]) + partitions[|partitions| - 1].size
  }

  function Flags(number: nat, flags: seq<string>): seq<Command> {
    if flags == [] then [] else Flags(number, flags[..|flags| - 1]) + [SetFlag(number, flags[|flags| - 1])]
  }

  /** The flags of a partition that are switched on, in order. */
  function AllFlags(p: Partition): seq<string> {
    (if p.bootFlag.GetOr("") == "" then [] else [p.bootFlag.value]) + p.extraFlags
  }

  function CommandsFor(number: nat, p: Partition, start: nat): seq<Command> {
    [Mkpart(p.partType, p.fsType, start, start + p.size)] + Flags(number, AllFlags(p))
  }

  function Commands(partitions: seq<Partition>): seq<Command> {
    if partitions == [] then [] else
      var before := partitions[..|partitions| - 1];
      Commands(before) + CommandsFor(|partitions|, partitions[|partitions| - 1], Start(before))
  }

  class DiskPartitioner {
    const device: string
    const diskLabel: string
    var partitions: seq<Partition>

    constructor (device: string, diskLabel: string)
      ensures this.device == device && this.diskLabel == diskLabel && partitions == []
    {
      this.device, this.diskLabel := device, diskLabel;
      partitions := [];
    }

    /** Returns the partition number. */
    method AddPartition(size: nat, fsType: string, bootFlag: Option<string>, extraFlags: seq<string>)
        returns (number: nat)
      modifies this
      ensures partitions == old(partitions) + [Partition(size, "primary", fsType, bootFlag, extraFlags)]
      ensures number == |partitions|
    {
      partitions := partitions + [Partition(size, "primary", fsType, bootFlag, extraFlags)];
      number := |partitions|;
    }

    /** The arguments of the one parted command. */
    method Commit() returns (arguments: seq<Command>)
      ensures arguments == [Mklabel(diskLabel)] + Commands(partitions)
    {
      arguments := [Mklabel(diskLabel)];
      var start := 1;
      for i := 0 to |partitions|
        invariant arguments == [Mklabel(diskLabel)] + Commands(partitions[..i])
        invariant start == Start(partitions[..i])
      {
        var number, part := i + 1, partitions[i];
        assert partitions[..i + 1][..i] == partitions[..i];
        var end := start + part.size;
        var flags := FlagCommands(number, part);
        arguments := arguments + ([Mkpart(part.partType, part.fsType, start, end)] + flags);
        start := end;
      }
      assert partitions[..|partitions|] == partitions;
    }

    method FlagCommands(number: nat, part: Partition) returns (block: seq<Command>)
      ensures block == Flags(number, AllFlags(part))
    {
      block := [];
      ghost var first := if part.bootFlag.GetOr("") == "" then [] else [part.bootFlag.value];
      if part.bootFlag.GetOr("") != "" { block := [SetFlag(number, part.bootFlag.value)]; }
      assert first + part.extraFlags[..0] == first;
      for j := 0 to |part.extraFlags|
        invariant block == Flags(number, first + part.extraFlags[..j])
      {
        assert (first + part.extraFlags[..j + 1])[..|first| + j] == first + part.extraFlags[..j];
        block := block + [SetFlag(number, part.extraFlags[j])];
      }
      assert part.extraFlags[..|part.extraFlags|] == part.extraFlags;
    }
  }

  // ----- What is committed -----

  function Mkparts(commands: seq<Command>): seq<Command> {
    if commands == [] then [] else
      Mkparts(commands[..|commands| - 1]) + if commands[|commands| - 1].Mkpart? then [commands[|commands| - 1]] else []
  }

  lemma {:induction false} MkpartsAppend(a: seq<Command>, b: seq<Command>)
    ensures Mkparts(a + b) == Mkparts(a) + Mkparts(b)
  {
    if b == [] {
      assert a + b == a;
    } else {
      var c := b[..|b| - 1];
      assert (a + b)[..|a + b| - 1] == a + c;
      MkpartsAppend(a, c);
    }
  }

  lemma {:induction false} NoMkpartInFlags(number: nat, flags: seq<string>)
    ensures Mkparts(Flags(number, flags)) == []
  {
    if flags != [] { NoMkpartInFlags(number, flags[..|flags| - 1]); }
  }

  function Intervals(partitions: seq<Partition>): seq<Command> {
    if partitions == [] then [] else
      var before, last := partitions[..|partitions| - 1], partitions[|partitions| - 1];
      Intervals(before) + [Mkpart(last.partType, last.fsType, Start(before), Start(before) + last.size)]
  }

  lemma {:induction false} MkpartsAreIntervals(partitions: seq<Partition>)
    ensures Mkparts(Commands(partitions)) == Intervals(partitions)
  {
    if partitions != [] {
      var n := |partitions| - 1;
      var before := partitions[..n];
      MkpartsAreIntervals(before);
      CommandsSnoc(before, partitions[n]);
      assert partitions == before + [partitions[n]];
    }
  }

  lemma {:induction false} CommandsSnoc(before: seq<Partition>, last: Partition)
    ensures Mkparts(Commands(before + [last])) ==
      Mkparts(Commands(before)) + [Mkpart(last.partType, last.fsType, Start(before), Start(before) + last.size)]
    ensures Intervals(before + [last]) ==
      Intervals(before) + [Mkpart(last.partType, last.fsType, Start(before), Start(before) + last.size)]
  {
    var all, block := before + [last], CommandsFor(|before| + 1, last, Start(before));
    assert all[..|all| - 1] == before;
    assert Commands(all) == Commands(before) + block;
    MkpartsAppend(Commands(before), block);
    MkpartsFor(|before| + 1, last, Start(before));
  }

  lemma {:induction false} MkpartsFor(number: nat, p: Partition, start: nat)
    ensures Mkparts(CommandsFor(number, p, start)) == [Mkpart(p.partType, p.fsType, start, start + p.size)]
  {
    var first := Mkpart(p.partType, p.fsType, start, start + p.size);
    MkpartsAppend([first], Flags(number, AllFlags(p)));
    NoMkpartInFlags(number, AllFlags(p));
    OneMkpart(first);
  }

  lemma {:induction false} OneMkpart(c: Command)
    requires c.Mkpart?
    ensures Mkparts([c]) == [c]
  {
    assert [c][..0] == [];
  }

  /** The committed intervals: the first starts at 1 MiB, each next one where the one before
      ends, each has its partition's size, and the last ends at 1 plus the sum of the sizes. */
  lemma {:induction false} IntervalsTile(partitions: seq<Partition>)
    ensures var m := Mkparts(Commands(partitions));
            && |m| == |partitions|
            && (forall k :: 0 <= k < |m| ==> m[k].Mkpart? && m[k].end - m[k].start == partitions[k].size)
            && (forall k :: 0 <= k < |m| - 1 ==> m[k].end == m[k + 1].start)
            && (m != [] ==> m[0].start == 1 && m[|m| - 1].end == Start(partitions))
  {
    MkpartsAreIntervals(partitions);
    Tiling(partitions);
  }

  lemma {:induction false} Tiling(partitions: seq<Partition>)
    ensures var m := Intervals(partitions);
            && |m| == |partitions|
            && (forall k :: 0 <= k < |m| ==> m[k].Mkpart? && m[k].end - m[k].start == partitions[k].size)
            && (forall k :: 0 <= k < |m| - 1 ==> m[k].end == m[k + 1].start)
            && (m != [] ==> m[0].start == 1 && m[|m| - 1].end == Start(partitions))
  {
    if partitions != [] { Tiling(partitions[..|partitions| - 1]); }
  }

  // ----- make_partitions -----

  datatype Options = Options(
    rootMb: nat, swapMb: nat, ephemeralMb: nat, configdriveMb: nat, commit: bool, bootOption: string, bootMode: string,
    diskLabel: Option<string>, cpuArch: string, efiSize: nat, biosBootSize: nat)

  /** The partitions a table may hold; a role is also the key of its path in the result. */
  datatype Role =
    | Efi          // 'efi system partition'
    | BiosBoot     // 'BIOS Boot partition'
    | Prep         // 'PReP Boot partition'
    | Ephemeral
    | Swap
    | Configdrive
    | Root

  const ORDER := [Efi, BiosBoot, Prep, Ephemeral, Swap, Configdrive, Root]

  function LabelOf(o: Options): string {
    if o.diskLabel.Some? then o.diskLabel.value else if o.bootMode == "uefi" then "gpt" else "msdos"
  }

  predicate IsPpc64(o: Options) {
    "ppc64" <= o.cpuArch
  }

  predicate BootsLocally(o: Options, mode: string) {
    o.bootMode == mode && o.bootOption == "local"
  }

  /** When the table holds a partition for a role. */
  predicate Wanted(o: Options, role: Role) {
    match role
    case Efi => BootsLocally(o, "uefi")
    case BiosBoot => BootsLocally(o, "bios") && LabelOf(o) == "gpt" && !IsPpc64(o)
    case Prep => BootsLocally(o, "bios") && IsPpc64(o)
    case Ephemeral => o.ephemeralMb > 0
    case Swap => o.swapMb > 0
    case Configdrive => o.configdriveMb > 0
    case Root => true
  }

  function PartitionOf(o: Options, role: Role): Partition {
    match role
    case Efi => Partition(o.efiSize, "primary", "fat32", Some("boot"), [])
    case BiosBoot => Partition(o.biosBootSize, "primary", "", Some("bios_grub"), [])
    case Prep => Partition(8, "primary", "", if LabelOf(o) == "msdos" then Some("boot") else None, ["prep"])
    case Ephemeral => Partition(o.ephemeralMb, "primary", "", None, [])
    case Swap => Partition(o.swapMb, "primary", "linux-swap", None, [])
    case Configdrive => Partition(o.configdriveMb, "primary", "", None, [])
    case Root =>
      var boots := !IsPpc64(o) && BootsLocally(o, "bios") && LabelOf(o) == "msdos";
      Partition(o.rootMb, "primary", "", if boots then Some("boot") else None, [])
  }

  /** The roles among `order` that are wanted. */
  function Roles(o: Options, order: seq<Role>): (roles: seq<Role>)
    ensures forall r :: r in roles <==> r in order && Wanted(o, r)
  {
    if order == [] then [] else
      var last := order[|order| - 1];
      Roles(o, order[..|order| - 1]) + if Wanted(o, last) then [last] else []
  }

  function Table(o: Options, roles: seq<Role>): (t: seq<Partition>)
    ensures |t| == |roles| && forall k :: 0 <= k < |t| ==> t[k] == PartitionOf(o, roles[k])
  {
    if roles == [] then [] else Table(o, roles[..|roles| - 1]) + [PartitionOf(o, roles[|roles| - 1])]
  }

  /** The path of each role: the printed path of its number in the table. */
  function Paths(device: string, roles: seq<Role>): map<Role, string> {
    if roles == [] then map[] else
      Paths(device, roles[..|roles| - 1])[roles[|roles| - 1] := Names.PartitionIndexToPath(device, |roles|)]
  }

  lemma {:induction false} RolesSnoc(o: Options, order: seq<Role>, role: Role)
    ensures Roles(o, order + [role]) == if Wanted(o, role) then Roles(o, order) + [role] else Roles(o, order)
  {
    assert (order + [role])[..|order|] == order;
  }

  lemma {:induction false} PathsSnoc(o: Options, device: string, roles: seq<Role>, role: Role)
    ensures Paths(device, roles + [role]) ==
      Paths(device, roles)[role := Names.PartitionIndexToPath(device, |roles| + 1)]
    ensures Table(o, roles + [role]) == Table(o, roles) + [PartitionOf(o, role)]
  {
    assert (roles + [role])[..|roles|] == roles;
  }

  /** The table and the paths after the roles in `order` have had their turn. */
  ghost predicate Built(dp: DiskPartitioner, partDict: map<Role, string>, o: Options, order: seq<Role>)
    reads dp
  {
    dp.partitions == Table(o, Roles(o, order)) && partDict == Paths(dp.device, Roles(o, order))
  }

  /** One block of make_partitions: under its condition, a partition is added and its path
      remembered. */
  method AddIf(condition: bool, dp: DiskPartitioner, partDict: map<Role, string>, ghost o: Options,
      ghost order: seq<Role>, role: Role,
               size: nat, fsType: string, bootFlag: Option<string>, extraFlags: seq<string>)
    returns (r: map<Role, string>)
    requires Built(dp, partDict, o, order)
    requires condition == Wanted(o, role) &&
      PartitionOf(o, role) == Partition(size, "primary", fsType, bootFlag, extraFlags)
    modifies dp
    ensures Built(dp, r, o, order + [role])
  {
    RolesSnoc(o, order, role);
    r := partDict;
    if condition {
      PathsSnoc(o, dp.device, Roles(o, order), role);
      var number := dp.AddPartition(size, fsType, bootFlag, extraFlags);
      r := r[role := Names.PartitionIndexToPath(dp.device, number)];
    }
  }

  method AddBootPartitions(dp: DiskPartitioner, o: Options) returns (partDict: map<Role, string>)
    requires dp.partitions == [] && dp.diskLabel == LabelOf(o)
    modifies dp
    ensures Built(dp, partDict, o, [] + [Efi] + [BiosBoot] + [Prep])
  {
    var local, ppc64 := o.bootOption == "local", "ppc64" <= o.cpuArch;
    partDict := AddIf(o.bootMode == "uefi" && local, dp, map[], o, [], Efi, o.efiSize, "fat32", Some("boot"), []);
    partDict := AddIf(o.bootMode == "bios" && local && dp.diskLabel == "gpt" && !ppc64,
                      dp, partDict, o, [] + [Efi], BiosBoot,
                      o.biosBootSize, "", Some("bios_grub"), []);
    partDict := AddIf(ppc64 && o.bootMode == "bios" && local, dp, partDict, o, [] + [Efi] + [BiosBoot], Prep,
                      8, "", if dp.diskLabel == "msdos" then Some("boot") else None, ["prep"]);
  }

  method AddDataPartitions(dp: DiskPartitioner, o: Options, boot: map<Role, string>, ghost order: seq<Role>)
      returns (partDict: map<Role, string>)
    requires Built(dp, boot, o, order)
    modifies dp
    ensures Built(dp, partDict, o, order + [Ephemeral] + [Swap] + [Configdrive])
  {
    partDict := AddIf(o.ephemeralMb != 0, dp, boot, o, order, Ephemeral, o.ephemeralMb, "", None, []);
    partDict := AddIf(o.swapMb != 0, dp, partDict, o, order + [Ephemeral], Swap, o.swapMb, "linux-swap", None, []);
    partDict := AddIf(o.configdriveMb != 0, dp, partDict, o, order + [Ephemeral] + [Swap], Configdrive,
      o.configdriveMb, "", None, []);
  }

  /** The root partition comes last. */
  method AddRoot(dp: DiskPartitioner, o: Options, data: map<Role, string>, ghost order: seq<Role>)
      returns (partDict: map<Role, string>)
    requires Built(dp, data, o, order) && dp.diskLabel == LabelOf(o)
    modifies dp
    ensures Built(dp, partDict, o, order + [Root])
  {
    var boots := !("ppc64" <= o.cpuArch) && o.bootMode == "bios" && o.bootOption == "local" && dp.diskLabel == "msdos";
    var bootVal := if boots then Some("boot") else None;
    partDict := AddIf(true, dp, data, o, order, Root, o.rootMb, "", bootVal, []);
  }

  /** Returns the path of each role and, if asked to, the committed commands. */
  method MakePartitions(device: string, o: Options)
      returns (partDict: map<Role, string>, committed: Option<seq<Command>>)
    ensures partDict == Paths(device, Roles(o, ORDER))
    ensures committed == if o.commit then Some([Mklabel(LabelOf(o))] + Commands(Table(o, Roles(o, ORDER)))) else None
  {
    var diskLabel := if o.diskLabel.None? then (if o.bootMode == "uefi" then "gpt" else "msdos") else o.diskLabel.value;
    var dp := new DiskPartitioner(device, diskLabel);
    var boot := AddBootPartitions(dp, o);
    ghost var head := [] + [Efi] + [BiosBoot] + [Prep];
    var data := AddDataPartitions(dp, o, boot, head);
    ghost var body := head + [Ephemeral] + [Swap] + [Configdrive];
    partDict := AddRoot(dp, o, data, body);
    OrderIs(head, body);
    committed := None;
    if o.commit {
      var arguments := dp.Commit();
      committed := Some(arguments);
    }
  }

  lemma {:induction false} OrderIs(head: seq<Role>, body: seq<Role>)
    requires head == [] + [Efi] + [BiosBoot] + [Prep] && body == head + [Ephemeral] + [Swap] + [Configdrive]
    ensures body + [Root] == ORDER
  {
  }

  // ----- What a table promises, for all options and sizes -----

  /** Each role has the printed path of its number. */
  ghost predicate PathsOk(device: string, roles: seq<Role>, paths: map<Role, string>) {
    && (forall r :: r in paths <==> r in roles)
    && forall k :: 0 <= k < |roles| ==>
      roles[k] in paths && paths[roles[k]] == Names.PartitionIndexToPath(device, k + 1)
  }

  lemma {:induction false} OnePathMore(device: string, before: seq<Role>, paths: map<Role, string>, role: Role,
      path: string)
    requires PathsOk(device, before, paths) && role !in before &&
      path == Names.PartitionIndexToPath(device, |before| + 1)
    ensures PathsOk(device, before + [role], paths[role := path])
  {
  }

  lemma {:induction false} PathsAre(device: string, roles: seq<Role>)
    requires forall i, j :: 0 <= i < j < |roles| ==> roles[i] != roles[j]
    ensures PathsOk(device, roles, Paths(device, roles))
  {
    if roles != [] {
      var before, role := roles[..|roles| - 1], roles[|roles| - 1];
      PathsAre(device, before);
      assert roles == before + [role];
      OnePathMore(device, before, Paths(device, before), role, Names.PartitionIndexToPath(device, |roles|));
    }
  }

  lemma {:induction false} RolesDistinct(o: Options, order: seq<Role>)
    requires forall i, j :: 0 <= i < j < |order| ==> order[i] != order[j]
    ensures forall i, j :: 0 <= i < j < |Roles(o, order)| ==> Roles(o, order)[i] != Roles(o, order)[j]
  {
    if order != [] { RolesDistinct(o, order[..|order| - 1]); }
  }

  lemma {:induction false} RolesOfTable(o: Options)
    ensures var roles := Roles(o, ORDER);
            && (forall i, j :: 0 <= i < j < |roles| ==> roles[i] != roles[j])
            && (forall r :: r in roles <==> Wanted(o, r))
            && roles != [] && roles[|roles| - 1] == Root
  {
    RolesDistinct(o, ORDER);
    RolesSnoc(o, [Efi, BiosBoot, Prep, Ephemeral, Swap, Configdrive], Root);
    assert [Efi, BiosBoot, Prep, Ephemeral, Swap, Configdrive] + [Root] == ORDER;
    forall r: Role ensures r in ORDER { EveryRole(r); }
  }

  lemma {:induction false} EveryRole(r: Role)
    ensures r in ORDER
  {
    assert ORDER[0] == Efi && ORDER[1] == BiosBoot && ORDER[2] == Prep && ORDER[3] == Ephemeral;
    assert ORDER[4] == Swap && ORDER[5] == Configdrive && ORDER[6] == Root;
  }

  // ----- The flags that are committed -----

  lemma {:induction false} FlagCommandsAre(number: nat, flags: seq<string>, c: Command)
    ensures c in Flags(number, flags) <==> c.SetFlag? && c.number == number && c.flag in flags
  {
    if flags != [] {
      var before, last := flags[..|flags| - 1], flags[|flags| - 1];
      FlagCommandsAre(number, before, c);
      assert flags == before + [last];
    }
  }

  /** A flag is set on partition n exactly when the n-th partition of the table has it. */
  lemma {:induction false} FlagsAreCommitted(partitions: seq<Partition>, n: nat, flag: string)
    ensures SetFlag(n, flag) in Commands(partitions) <==> 1 <= n <= |partitions| && flag in AllFlags(partitions[n - 1])
  {
    if partitions != [] {
      var before, last := partitions[..|partitions| - 1], partitions[|partitions| - 1];
      FlagsAreCommitted(before, n, flag);
      FlagsOfBlock(|partitions|, last, Start(before), n, flag);
      assert 1 <= n <= |before| ==> before[n - 1] == partitions[n - 1];
    }
  }

  lemma {:induction false} FlagsOfBlock(number: nat, p: Partition, start: nat, n: nat, flag: string)
    ensures SetFlag(n, flag) in CommandsFor(number, p, start) <==> n == number && flag in AllFlags(p)
  {
    FlagCommandsAre(number, AllFlags(p), SetFlag(n, flag));
    assert SetFlag(n, flag) in CommandsFor(number, p, start) <==> SetFlag(n, flag) in Flags(number, AllFlags(p));
  }

  /** How many commands set a flag. */
  function TimesSet(commands: seq<Command>, flag: string): nat {
    if commands == [] then 0 else
      var last := commands[|commands| - 1];
      TimesSet(commands[..|commands| - 1], flag) + if last.SetFlag? && last.flag == flag then 1 else 0
  }

  lemma {:induction false} TimesSetAppend(a: seq<Command>, b: seq<Command>, flag: string)
    ensures TimesSet(a + b, flag) == TimesSet(a, flag) + TimesSet(b, flag)
  {
    if b == [] {
      assert a + b == a;
    } else {
      var c := b[..|b| - 1];
      assert (a + b)[..|a + b| - 1] == a + c;
      TimesSetAppend(a, c, flag);
    }
  }

  lemma {:induction false} TimesSetOf(number: nat, flags: seq<string>, flag: string)
    requires forall i, j :: 0 <= i < j < |flags| ==> flags[i] != flags[j]
    ensures TimesSet(Flags(number, flags), flag) == if flag in flags then 1 else 0
  {
    if flags != [] {
      var before, last := flags[..|flags| - 1], flags[|flags| - 1];
      TimesSetOf(number, before, flag);
      assert flags == before + [last] && last !in before;
      assert Flags(number, flags)[..|Flags(number, before)|] == Flags(number, before);
    }
  }

  lemma {:induction false} RoleFlagsDiffer(o: Options, role: Role)
    ensures var flags := AllFlags(PartitionOf(o, role)); forall i, j :: 0 <= i < j < |flags| ==> flags[i] != flags[j]
  {
    assert "boot"[0] != "prep"[0];
  }

  lemma {:induction false} FlagOnce(p: Partition, number: nat, start: nat, flag: string)
    requires forall i, j :: 0 <= i < j < |AllFlags(p)| ==> AllFlags(p)[i] != AllFlags(p)[j]
    ensures TimesSet(CommandsFor(number, p, start), flag) == if flag in AllFlags(p) then 1 else 0
  {
    var make := Mkpart(p.partType, p.fsType, start, start + p.size);
    TimesSetAppend([make], Flags(number, AllFlags(p)), flag);
    assert [make][..0] == [];
    TimesSetOf(number, AllFlags(p), flag);
  }

  /** At most one command sets the boot flag, as long as at most one of the roles is bootable. */
  lemma {:induction false} BootFlagsOfRoles(o: Options, roles: seq<Role>)
    requires forall i, j :: 0 <= i < j < |roles| ==>
      !(Bootable(PartitionOf(o, roles[i])) && Bootable(PartitionOf(o, roles[j])))
    ensures TimesSet(Commands(Table(o, roles)), "boot") <= 1
    ensures TimesSet(Commands(Table(o, roles)), "boot") > 0 ==>
      exists i :: 0 <= i < |roles| && Bootable(PartitionOf(o, roles[i]))
  {
    if roles != [] {
      var before, role := roles[..|roles| - 1], roles[|roles| - 1];
      BootFlagsOfRoles(o, before);
      var table := Table(o, roles);
      assert table[..|table| - 1] == Table(o, before);
      TimesSetAppend(Commands(Table(o, before)), CommandsFor(|roles|, PartitionOf(o, role), Start(Table(o, before))),
        "boot");
      RoleFlagsDiffer(o, role);
      FlagOnce(PartitionOf(o, role), |roles|, Start(Table(o, before)), "boot");
      if i :| 0 <= i < |before| && Bootable(PartitionOf(o, before[i])) {
        assert roles[i] == before[i] && !Bootable(PartitionOf(o, role));
      }
      assert Bootable(PartitionOf(o, role)) ==> Bootable(PartitionOf(o, roles[|roles| - 1]));
    }
  }

  /** The commands that are committed, for all options: at most one sets the boot flag. */
  lemma {:induction false} OneBootCommand(o: Options)
    ensures TimesSet(Commands(Table(o, Roles(o, ORDER))), "boot") <= 1
  {
    var roles := Roles(o, ORDER);
    RolesOfTable(o);
    forall i, j | 0 <= i < j < |roles|
      ensures !(Bootable(PartitionOf(o, roles[i])) && Bootable(PartitionOf(o, roles[j])))
    {
      if Bootable(PartitionOf(o, roles[i])) && Bootable(PartitionOf(o, roles[j])) { OneBootFlag(o, i, j); }
    }
    BootFlagsOfRoles(o, roles);
  }

  /** The partition committed as number k + 1, with its size, its file system and its flags. */
  ghost predicate CommittedAs(table: seq<Partition>, k: nat, p: Partition) {
    var m := Mkparts(Commands(table));
    && k < |m| && m[k].Mkpart? && m[k] == Mkpart(p.partType, p.fsType, m[k].start, m[k].start + p.size)
    && forall flag :: SetFlag(k + 1, flag) in Commands(table) <==> flag in AllFlags(p)
  }

  lemma {:induction false} IntervalsAre(partitions: seq<Partition>, k: nat)
    requires k < |partitions|
    ensures |Intervals(partitions)| == |partitions|
    ensures var p, m := partitions[k], Intervals(partitions)[k];
            m.Mkpart? && m == Mkpart(p.partType, p.fsType, m.start, m.start + p.size)
  {
    var before := partitions[..|partitions| - 1];
    if k < |before| { IntervalsAre(before, k); } else if before != [] { IntervalsAre(before, 0); }
  }

  /** The path returned for a role carries the number under which the partition with that role's size and
      flags is committed; and the root partition is the last one. */
  lemma {:induction false} PathsMatchTable(device: string, o: Options)
    ensures var roles := Roles(o, ORDER);
            var table := Table(o, roles);
            && (forall r :: r in Paths(device, roles) <==> Wanted(o, r))
            && (forall k :: 0 <= k < |roles| ==>
                  roles[k] in Paths(device, roles) && CommittedAs(table, k, PartitionOf(o, roles[k])) &&
                  Paths(device, roles)[roles[k]] == Names.PartitionIndexToPath(device, k + 1))
            && roles != [] && roles[|roles| - 1] == Root
  {
    var roles := Roles(o, ORDER);
    RolesOfTable(o);
    PathsAre(device, roles);
    forall k | 0 <= k < |roles| ensures CommittedAs(Table(o, roles), k, PartitionOf(o, roles[k])) {
      Committed(Table(o, roles), k);
    }
  }

  lemma {:induction false} Committed(table: seq<Partition>, k: nat)
    requires k < |table|
    ensures CommittedAs(table, k, table[k])
  {
    MkpartsAreIntervals(table);
    IntervalsAre(table, k);
    forall flag ensures SetFlag(k + 1, flag) in Commands(table) <==> flag in AllFlags(table[k]) {
      FlagsAreCommitted(table, k + 1, flag);
    }
  }

  lemma {:induction false} DistinctPaths(device: string, o: Options, a: Role, b: Role)
    requires Wanted(o, a) && Wanted(o, b) && a != b
    ensures var paths := Paths(device, Roles(o, ORDER)); a in paths && b in paths && paths[a] != paths[b]
  {
    RolesOfTable(o);
    PathsDistinct(device, Roles(o, ORDER), a, b);
  }

  lemma {:induction false} PathsDistinct(device: string, roles: seq<Role>, a: Role, b: Role)
    requires forall i, j :: 0 <= i < j < |roles| ==> roles[i] != roles[j]
    requires a in roles && b in roles && a != b
    ensures a in Paths(device, roles) && b in Paths(device, roles) && Paths(device, roles)[a] != Paths(device, roles)[b]
  {
    PathsAre(device, roles);
    var i :| 0 <= i < |roles| && roles[i] == a;
    var j :| 0 <= j < |roles| && roles[j] == b;
    if Names.PartitionIndexToPath(device, i + 1) == Names.PartitionIndexToPath(device, j + 1) {
      Names.PathInjective(device, i + 1, j + 1);
    }
  }

  predicate Bootable(p: Partition) {
    "boot" in AllFlags(p)
  }

  /** At most one partition of the table carries the boot flag. */
  lemma {:induction false} OneBootFlag(o: Options, i: nat, j: nat)
    requires var table := Table(o, Roles(o, ORDER));
             i < |table| && j < |table| && Bootable(table[i]) && Bootable(table[j])
    ensures i == j
  {
    RolesOfTable(o);
    var roles := Roles(o, ORDER);
    var a, b := roles[i], roles[j];
    assert a in roles && b in roles;
    BootableRole(o, a);
    BootableRole(o, b);
  }

  /** The role whose partition may carry the boot flag is determined by the options. */
  lemma {:induction false} BootableRole(o: Options, r: Role)
    requires Wanted(o, r) && Bootable(PartitionOf(o, r))
    ensures r == if o.bootMode == "uefi" then Efi else if IsPpc64(o) then Prep else Root
  {
  }

  /** Partition k + 1 is committed with this size, file system and flags. */
  ghost predicate CommittedWith(o: Options, k: nat, size: nat, fsType: string, flags: set<string>) {
    var commands := Commands(Table(o, Roles(o, ORDER)));
    var m := Mkparts(commands);
    && k < |m| && m[k].Mkpart? && m[k].partType == "primary" && m[k].fsType == fsType && m[k].end - m[k].start == size
    && forall flag :: SetFlag(k + 1, flag) in commands <==> flag in flags
  }

  function OneIf(wanted: bool, role: Role): seq<Role> {
    if wanted then [role] else []
  }

  lemma {:induction false} OneRoleMore(o: Options, order: seq<Role>, roles: seq<Role>, role: Role)
    requires Roles(o, order) == roles
    ensures Roles(o, order + [role]) == roles + OneIf(Wanted(o, role), role)
  {
    RolesSnoc(o, order, role);
  }

  /** The table holds the partitions that the options ask for, in this order. */
  lemma {:induction false} RolesInOrder(o: Options)
    ensures var diskLabel := o.diskLabel.GetOr(if o.bootMode == "uefi" then "gpt" else "msdos");
            var bios, ppc64 := o.bootMode == "bios" && o.bootOption == "local", "ppc64" <= o.cpuArch;
            Roles(o, ORDER) ==
              OneIf(o.bootMode == "uefi" && o.bootOption == "local", Efi) +
              OneIf(bios && diskLabel == "gpt" && !ppc64, BiosBoot) + OneIf(bios && ppc64, Prep) +
              OneIf(o.ephemeralMb > 0, Ephemeral) + OneIf(o.swapMb > 0, Swap) +
              OneIf(o.configdriveMb > 0, Configdrive) + [Root]
  {
    assert Roles(o, []) == [];
    var e := OneIf(Wanted(o, Efi), Efi);
    assert [] + e == e;
    OneRoleMore(o, [], [], Efi);
    OneRoleMore(o, [] + [Efi], e, BiosBoot);
    var b := e + OneIf(Wanted(o, BiosBoot), BiosBoot);
    OneRoleMore(o, [] + [Efi] + [BiosBoot], b, Prep);
    var head := [] + [Efi] + [BiosBoot] + [Prep];
    var p := b + OneIf(Wanted(o, Prep), Prep);
    OneRoleMore(o, head, p, Ephemeral);
    var m := p + OneIf(Wanted(o, Ephemeral), Ephemeral);
    OneRoleMore(o, head + [Ephemeral], m, Swap);
    var w := m + OneIf(Wanted(o, Swap), Swap);
    OneRoleMore(o, head + [Ephemeral] + [Swap], w, Configdrive);
    var body := head + [Ephemeral] + [Swap] + [Configdrive];
    OneRoleMore(o, body, w + OneIf(Wanted(o, Configdrive), Configdrive), Root);
    OrderIs(head, body);
  }

  /** Each of them is committed with the size that its own option gives, its file system and its flags. */
  lemma {:induction false} AsTheOptionsSay(o: Options, k: nat)
    requires k < |Roles(o, ORDER)|
    ensures var diskLabel := o.diskLabel.GetOr(if o.bootMode == "uefi" then "gpt" else "msdos");
            var boots := o.bootMode == "bios" && o.bootOption == "local" && diskLabel == "msdos" &&
              !("ppc64" <= o.cpuArch);
            var role := Roles(o, ORDER)[k];
            && (role == Efi ==> CommittedWith(o, k, o.efiSize, "fat32", {"boot"}))
            && (role == BiosBoot ==> CommittedWith(o, k, o.biosBootSize, "", {"bios_grub"}))
            && (role == Prep ==>
                  CommittedWith(o, k, 8, "", if diskLabel == "msdos" then {"boot", "prep"} else {"prep"}))
            && (role == Ephemeral ==> CommittedWith(o, k, o.ephemeralMb, "", {}))
            && (role == Swap ==> CommittedWith(o, k, o.swapMb, "linux-swap", {}))
            && (role == Configdrive ==> CommittedWith(o, k, o.configdriveMb, "", {}))
            && (role == Root ==> CommittedWith(o, k, o.rootMb, "", if boots then {"boot"} else {}))
  {
    var role := Roles(o, ORDER)[k];
    WithOptions(o, k);
    OptionsOf(o, role);
  }

  lemma {:induction false} OptionsOf(o: Options, role: Role)
    ensures var diskLabel := o.diskLabel.GetOr(if o.bootMode == "uefi" then "gpt" else "msdos");
            var boots := o.bootMode == "bios" && o.bootOption == "local" && diskLabel == "msdos" &&
              !("ppc64" <= o.cpuArch);
            var p := PartitionOf(o, role);
            (p.size, p.fsType, FlagsOf(p)) == match role
              case Efi => (o.efiSize, "fat32", {"boot"})
              case BiosBoot => (o.biosBootSize, "", {"bios_grub"})
              case Prep => (8, "", if diskLabel == "msdos" then {"boot", "prep"} else {"prep"})
              case Ephemeral => (o.ephemeralMb, "", {})
              case Swap => (o.swapMb, "linux-swap", {})
              case Configdrive => (o.configdriveMb, "", {})
              case Root => (o.rootMb, "", if boots then {"boot"} else {})
  {
    FlagSet(PartitionOf(o, role));
  }

  function FlagsOf(p: Partition): set<string> {
    set flag | flag in AllFlags(p)
  }

  lemma {:induction false} FlagSet(p: Partition)
    ensures FlagsOf(p) ==
      (if p.bootFlag.GetOr("") == "" then {} else {p.bootFlag.value}) + set flag | flag in p.extraFlags
    ensures p.extraFlags == [] ==> FlagsOf(p) == if p.bootFlag.GetOr("") == "" then {} else {p.bootFlag.value}
    ensures p.extraFlags == ["prep"] ==>
      FlagsOf(p) == if p.bootFlag.GetOr("") == "" then {"prep"} else {p.bootFlag.value, "prep"}
  {
  }

  lemma {:induction false} WithOptions(o: Options, k: nat)
    requires k < |Roles(o, ORDER)|
    ensures var p := PartitionOf(o, Roles(o, ORDER)[k]);
            CommittedWith(o, k, p.size, p.fsType, FlagsOf(p))
  {
    var table := Table(o, Roles(o, ORDER));
    Committed(table, k);
    assert table[k].partType == "primary";
  }

  /** A flag is set when its partition has just been made. */
  lemma {:induction false} FlagsFollow(partitions: seq<Partition>, p: nat)
    requires p < |Commands(partitions)| && Commands(partitions)[p].SetFlag?
    ensures |Mkparts(Commands(partitions)[..p])| == Commands(partitions)[p].number
  {
    var before, last := partitions[..|partitions| - 1], partitions[|partitions| - 1];
    var earlier := Commands(before);
    var block := CommandsFor(|partitions|, last, Start(before));
    assert Commands(partitions) == earlier + block;
    if p < |earlier| {
      assert (earlier + block)[..p] == earlier[..p];
      FlagsFollow(before, p);
    } else {
      var q := p - |earlier|;
      assert (earlier + block)[..p] == earlier + block[..q];
      MkpartsAppend(earlier, block[..q]);
      FlagInBlock(|partitions|, last, Start(before), q);
      IntervalsTile(before);
    }
  }

  lemma {:induction false} FlagInBlock(number: nat, p: Partition, start: nat, q: nat)
    requires q < |CommandsFor(number, p, start)| && CommandsFor(number, p, start)[q].SetFlag?
    ensures |Mkparts(CommandsFor(number, p, start)[..q])| == 1
    ensures CommandsFor(number, p, start)[q].number == number
  {
    var block, flags := CommandsFor(number, p, start), Flags(number, AllFlags(p));
    assert block[..q] == [block[0]] + flags[..q - 1];
    MkpartsAppend([block[0]], flags[..q - 1]);
    assert flags[q - 1] == block[q] && flags[q - 1] in flags;
    FlagCommandsAre(number, AllFlags(p), flags[q - 1]);
    SomeFlags(number, AllFlags(p), q - 1);
    OneMkpart(block[0]);
  }

  lemma {:induction false} SomeFlags(number: nat, flags: seq<string>, n: nat)
    requires n <= |Flags(number, flags)|
    ensures Mkparts(Flags(number, flags)[..n]) == []
  {
    NoMkpartInFlags(number, flags);
    MkpartsAppend(Flags(number, flags)[..n], Flags(number, flags)[n..]);
    assert Flags(number, flags) == Flags(number, flags)[..n] + Flags(number, flags)[n..];
  }
}
