# Verified model of ironic-python-agent

The agent that runs on a bare-metal node takes decisions that cannot be taken back: which disks to
wipe, which arrays to leave alone, which end of a pair starts writing, whether a downloaded image
is the right one. This project models that planning and protocol logic in Dafny and proves what it
promises. Commands are recorded instead of run; what they report, what servers and devices answer,
what time passes and how threads interleave is up to an arbitrary environment, so every result
holds for all of these.

| file | models |
|---|---|
| `Pairing.dfy` | the pairing of nodes for the network burn-in: any number of nodes, one step at a time, a shared group and a shared lock |
| `RaidTarget.dfy` | the target RAID configuration and its validation |
| `RaidLabels.dfy` | the labels keep, wipe and delete of existing arrays around the skip list |
| `DeletePass.dfy` | a pass that deletes arrays, and what it never touches |
| `Reconcile.dfy` | matching existing arrays with the target |
| `RaidLayout.dfy` | the partitions of each disk and the arrays built from them |
| `Names.dfy` | partition names, printed and taken apart |
| `Partitions.dfy` | the partition table of the root disk |
| `Executor.dfy` | the execution of commands by API threads and background threads |
| `Heartbeat.dfy` | the heartbeat loop, with jitter and forced heartbeats |
| `Download.dfy` | the download of an image with retries, to a file or onto a device |
| `Lldp.dfy` | the parser of LLDP packets |
| `Steps.dfy` | the order of hardware managers, dispatch, and the choice among steps |
| `Erase.dfy` | the erasure of a block device: ATA security, NVMe format, shred |
| `Wrappers.dfy` | Option and Result |

The two protocols, pairing and command execution, are state machines: a schedule names who takes the
next step, `After` runs it, and the results are about the state after every schedule that can
be run. Code that updates dictionaries, lists, objects and devices is modelled by classes and
methods with loops, proved against functions on values; the results about those functions are
lemmas. Every lemma switches automatic induction off, so a proof is what its body says.

Where the code does not keep to what its callers may expect, the exact condition is proved and a
concrete input shows the failure:

- `extract_device` and `split_device_and_partition_number` do not give back every device whose
  partition path is printed (`Names.ExtractUndoesPath`, `Names.SplitUndoesPath`): an iSCSI disk
  (`Names.IscsiIsNotExtracted`), and /dev/mmcblk0, whose first partition is split into the device and
  "p1" (`Names.MmcIsNotSplit`).
- Component names are not the kernel's names of the partitions for every device
  (`RaidLayout.ComponentNameIsPath`): no component on /dev/mmcblk0 is a partition that was made
  there (`RaidLayout.MmcIsMisnamed`).
- The labels depend on the order of two 'esp' arrays (`RaidLabels.LabelIgnoresOrder`,
  `RaidLabels.LabelDependsOnOrder`, `RaidLabels.TwoEspArrays`).
- Encoding a parsed LLDP packet does not give back one whose header declares too much
  (`Lldp.EncodeInvertsParse`, `Lldp.TruncatedPacket`).
- The reordering of logical disks keeps only one of two MAX disks (`RaidLayout.ReorderKeepsAll`,
  `RaidLayout.TwoMaxDisks`); validation does not let two of them reach it
  (`RaidLayout.AcceptedKeepsAll`).
- In the pairing a reader can return a writer that has timed out (`Pairing.ReaderAlone`): exactly in
  the runs in which that partner finds its time over (`Pairing.ReaderAgreementInTime`).
- An existing 'esp' array is kept beside a skip-listed one, but creation is refused if the target
  names it too and the skip list does not (`Reconcile.AcceptedExactly`).
- A forced heartbeat is lost exactly when it is forced while another one is successfully sent
  (`Heartbeat.LateForce`, `Heartbeat.ForcedUntilSuccess`).

Two devices of which one name is the other continued by digits, such as /dev/nbd1 and /dev/nbd11,
could share a component name (`RaidLayout.ComponentNameInjective`, `RaidLayout.ConfusableNames`,
`RaidLayout.NbdIsConfusable`), but only with more than ten logical disks
(`RaidLayout.NoSharedComponent`, `RaidLayout.ElevenDisks`). Validation lets at most two through, so
no two arrays share a component (`RaidLayout.AcceptedShareNothing`).

The comment that promises at least 12 heartbeat retries is right (`Heartbeat.TwelveRetries`) and
cannot be improved (`Heartbeat.NoMoreThanTwelve`). The pairing results hold even if a second node
finds its time over; for runs in which a positive timeout rules that out, the stronger results are
stated beside them. That nodes do pair, and are not only safe, is `Pairing.NobodyIsLeftOver`; likewise
the reasons for which an operation may refuse or fail are stated, so that it does so for no other.

## Model

| member | source | states |
|---|---|---|
| Pairing.Safety | ironic_python_agent/burnin.py:295-363 | in every reachable state of any number of nodes the group has at most two members, the waiting first node and the lock holder; the assertion and the "no partner" error are unreachable; a finished node is out of the group and without the lock |
| Pairing.WriterAgreement | ironic_python_agent/burnin.py:325-365 | in every run, also one in which second nodes find their time over: if a node has returned as writer with partner b, then b found exactly that node when it came, and b is still pairing, has returned that node as reader, or has timed out |
| Pairing.WriterAgreementInTime | ironic_python_agent/burnin.py:322-365 | in every run in which only first nodes time out: the writer's partner b is still pairing or has returned that writer as reader, and no other node found that writer |
| Pairing.ReaderAgreement | ironic_python_agent/burnin.py:325-365 | if a node has returned as reader with partner a, then a has left the group; a has timed out, exactly if the schedule lets it find its time over, or is a writer whose partner is that node or a node that timed out |
| Pairing.ReaderAgreementInTime | ironic_python_agent/burnin.py:322-365 | in every such run a reader's partner has returned exactly that reader if it never found its time over, and has timed out otherwise |
| Pairing.ExpiredInSchedule | ironic_python_agent/burnin.py:322-363 | in every run a node is leaving late or has timed out exactly if the schedule lets it find its time over |
| Pairing.ReaderAlone | ironic_python_agent/burnin.py:322-365 | a run of two nodes, in which only the first one times out: the second returns it as its writer all the same |
| Pairing.DistinctPartners | ironic_python_agent/burnin.py:325-365 | no two readers and no two writers have the same partner |
| Pairing.MutualPairs | ironic_python_agent/burnin.py:407-430 | when all nodes are done and none has timed out, pairs are mutual with opposite roles, so before and after the swap exactly one end writes, before the swap the node that came first |
| Pairing.MutualPairsInTime | ironic_python_agent/burnin.py:407-430 | in every such run, when all nodes are done: only first nodes have timed out, and every node that returns, unless it is a reader whose writer timed out, is in a mutual pair of which exactly one end writes before and after the swap |
| Pairing.NobodyIsLeftOver | ironic_python_agent/burnin.py:295-365 | every run of any number of nodes in which nobody finds its time over can go on in this way until all nodes have returned in mutual pairs with opposite roles, all but one if their number is odd |
| Pairing.FirstIsWriter | ironic_python_agent/burnin.py:295-365 | a run of two nodes in which they return each other, the one that came first as the writer |
| Pairing.NeverStuck | ironic_python_agent/burnin.py:295-365 | every run can be continued until all nodes are done, and one in which only first nodes time out without any other timeout |
| Pairing.Unblocked | ironic_python_agent/burnin.py:343-363 | while some node is not done, other than a first node that patiently waits alone, some node can move; a reader waits only for a first node that is still in the group and can move |
| Pairing.GroupSize | ironic_python_agent/burnin.py:295-363 | under the invariant the group holds at most the waiting first node and the lock holder |
| Pairing.NextInv | ironic_python_agent/burnin.py:295-365 | the global invariant is kept by every step of every node |
| Pairing.InvAlways | ironic_python_agent/burnin.py:295-365 | the invariant holds after every schedule |
| Pairing.WaitingView | ironic_python_agent/burnin.py:343-357 | when the second node stops waiting, the first has left the group |
| Pairing.EarlierTimedOut | ironic_python_agent/burnin.py:300-320 | when a node finds {a} in the group, every earlier node that found {a} has timed out |
| Pairing.SeesAnother | ironic_python_agent/burnin.py:325-340 | a node that takes the pairing branch sees somebody else |
| RaidLabels.HandleRaidSkipList | ironic_python_agent/hardware.py:3024-3076 | the labelling in place gives the declarative labels for any list of arrays; a cause is recorded exactly for the arrays whose first skip-listed neighbour is another array, and is its volume name; so also for a skip-listed array that was spared before its own turn |
| RaidLabels.Labelling.AnalyzeRaidDevice | ironic_python_agent/hardware.py:3102-3126 | records holder disks, volume name and skip-list membership of one array, and nothing about others |
| RaidLabels.Labelling.HandleRaidWithVolumeNameOnSkipList | ironic_python_agent/hardware.py:3128-3145 | keeps one array, turns delete into wipe for all arrays on its disks, and records the cause only for those turned now |
| RaidLabels.LabelMeaning | ironic_python_agent/hardware.py:3043-3076 | deleted exactly when not on the skip list and no disk of the array holds a skip-listed one; kept exactly when on the skip list, or the last 'esp' array in the order and one of its disks holds a skip-listed one; wiped otherwise; a cause is recorded exactly when the first skip-listed array on its disks is another one, and is its volume name |
| RaidLabels.LabelIgnoresOrder | ironic_python_agent/hardware.py:3043-3076 | the labels are the same for every order of the arrays unless there are two 'esp' arrays of which one is spared because of a neighbour |
| RaidLabels.LabelDependsOnOrder | ironic_python_agent/hardware.py:3043-3076 | in that case two permutations of the arrays give different labels |
| RaidLabels.TwoEspArrays | ironic_python_agent/hardware.py:3043-3076 | two 'esp' arrays beside a skip-listed one: which of them is kept depends on the order |
| DeletePass.Protection | ironic_python_agent/hardware.py:3447-3645 | no command of a pass over all arrays stops a kept or wiped array, wipes a kept one, wipes or zeroes a component of either, wipes or zeroes a disk that holds one, or removes one of its partitions; every partition that is removed belongs to a deleted array |
| DeletePass.DeleteConfigPass | ironic_python_agent/hardware.py:3447-3645 | every command of the pass is one that the labels allow; an array is wiped before it is stopped and stopped before its components are examined, and a superblock is removed exactly right after an examination that found it; the pass fails only at its last command: a deleted array's component could not be read, or could not be taken apart under a skip list, or the removal of a partition was refused; a pass that succeeds has wiped and stopped what it should, every removal succeeded, and each component of a deleted array was examined during the pass without finding a superblock, or rid of it |
| DeletePass.WipedThenStopped | ironic_python_agent/hardware.py:3515-3546 | if no other deleted array has the component, the wipe of its array, the stop and the examination come in this order |
| DeletePass.DiskErased | ironic_python_agent/hardware.py:3617-3640 | a pass that succeeds wipes every holder disk that holds no component of a spared array; from the others the partitions of deleted components are removed, unless no superblock was found on them |
| DeletePass.BlockScanned | ironic_python_agent/hardware.py:3591-3615 | a pass that succeeds examines every block device, and removes a superblock that is found, except the components of spared arrays and the disks of those that come after them |
| DeletePass.HolderShielded | ironic_python_agent/hardware.py:1795-1804 | since partitions come before their disks in reverse order, a holder disk of a spared array is protected before its own turn |
| DeletePass.NoDiskWiped | ironic_python_agent/hardware.py:3617-3640 | no holder disk of a spared array is wiped as a whole |
| DeletePass.NoSuperblockLost | ironic_python_agent/hardware.py:3537-3615 | neither a component nor a holder disk of a spared array loses its superblock |
| DeletePass.OnlyDeletedPartitions | ironic_python_agent/hardware.py:3617-3634 | a partition that is removed is no component of a spared array |
| DeletePass.Pass.DeleteComponent | ironic_python_agent/hardware.py:3538-3566 | one component: its superblock is zeroed exactly if one was found; it succeeds exactly if none was found, or if one was and, under a skip list, its name can be taken apart; exactly then its partition is remembered |
| DeletePass.Pass.ProcessArray | ironic_python_agent/hardware.py:3462-3567 | one array: kept ones are only recorded, wiped ones only wiped, deleted ones wiped, stopped and rid of the superblocks that examinations find |
| DeletePass.Pass.ScanBlocks | ironic_python_agent/hardware.py:3591-3615 | the second loop touches only unprotected, unshielded devices; it examines each of them and zeroes those with a superblock; it shields exactly the disks of protected partitions |
| DeletePass.Pass.EraseTables | ironic_python_agent/hardware.py:3617-3640 | shielded disks lose only remembered partitions, the others are wiped |
| RaidTarget.ValidateConfiguration | ironic_python_agent/hardware.py:3647-3762 | a configuration is accepted exactly when it meets all the rules |
| RaidTarget.DisksOkMeaning | ironic_python_agent/hardware.py:3675-3720 | checking each disk against those before it is the pairwise rules on volume names and root volumes |
| Reconcile.CreateRaidIgnoreList | ironic_python_agent/hardware.py:3170-3266 | succeeds exactly when nothing is in the way; the result is the matched logical disks |
| Reconcile.AcceptedExactly | ironic_python_agent/hardware.py:3190-3266 | creation does not raise exactly when no existing array is one the labels would delete, all have volume names, every name other than 'esp' is that of one array and is in the target, and the 'esp' arrays are at most: one on the skip list, and a second one if the target has it; or, not on the skip list, one that the target does not have |
| Reconcile.Conservation | ironic_python_agent/hardware.py:3190-3294 | when creation does not raise: existing names and names still to be created are disjoint and together give the target's names, and all existing arrays but a kept 'esp' are accounted for |
| Reconcile.MatchedOnce | ironic_python_agent/hardware.py:3237-3266 | a name is matched by exactly one logical disk if it exists and the target has it, and by none otherwise |
| Reconcile.MatchedNames | ironic_python_agent/hardware.py:3237-3266 | a name is matched exactly if it exists and the target has it |
| Reconcile.RemainingIs | ironic_python_agent/hardware.py:3285-3294 | the logical disks still to be created are those whose volume does not exist |
| Reconcile.RemainingInOrder | ironic_python_agent/hardware.py:3285-3294 | and they keep their order |
| Reconcile.NothingDeleted | ironic_python_agent/hardware.py:3190-3266 | when creation does not raise, no existing array, 'esp' or not, is one the labels would delete; every other than 'esp' has its volume name to itself and is named in the target |
| RaidLayout.GetBlockDevicesForRaid | ironic_python_agent/raid_utils.py:40-85 | each logical disk gets for each hint the first candidate not yet taken, all devices otherwise; fails exactly when some hint has none; the devices involved are listed once each |
| RaidLayout.DevicesMeaning | ironic_python_agent/raid_utils.py:53-79 | a disk without hints spans all devices; otherwise each hint gets its first candidate that no earlier hint of the disk took, and it fails exactly when all candidates of some hint are taken |
| RaidLayout.LayoutPartitions | ironic_python_agent/hardware.py:3349-3383 | each device gets one partition for each logical disk that uses it, in order, each from where the one before ended |
| RaidLayout.LayoutMeasures | ironic_python_agent/raid_utils.py:126-152 | the k-th partition of a device starts and ends where the sizes of the logical disks that use it add up to in GiB, the first one at the reserved offset, a MAX one at the end of the disk |
| RaidLayout.LayoutIsSound | ironic_python_agent/raid_utils.py:88-152 | partitions of a device are adjacent, not empty, start at the reserved offset, and nothing follows a MAX partition, exactly when the first one is larger than what is reserved, as it is from an early offset |
| RaidLayout.NoOverlap | ironic_python_agent/raid_utils.py:126-152 | no two partitions of a device overlap |
| RaidLayout.RaidStartIsEarly | ironic_python_agent/raid_utils.py:88-123 | the reserved offset is 551 MiB, 8 MiB or the first sector, in bytes, and lies before the first GiB, except exactly for a first sector beyond it, for every sector size |
| RaidLayout.Reorder | ironic_python_agent/hardware.py:3328-3339 | the disks of fixed size, then the MAX disk |
| RaidLayout.FixedInOrder | ironic_python_agent/hardware.py:3328-3339 | the disks of fixed size keep their order |
| RaidLayout.LastMaxIsLast | ironic_python_agent/hardware.py:3328-3339 | of several MAX disks the last one is kept |
| RaidLayout.ReorderKeepsAll | ironic_python_agent/hardware.py:3328-3339 | the reordering loses no logical disk exactly when no two of them are MAX |
| RaidLayout.TwoMaxDisks | ironic_python_agent/hardware.py:3328-3339 | two MAX disks of which the reordering keeps one, and which validation rejects |
| RaidLayout.AcceptedKeepsAll | ironic_python_agent/hardware.py:3729-3739 | no accepted configuration loses one, whatever reconciliation took out |
| RaidLayout.CreateRaidDevices | ironic_python_agent/raid_utils.py:217-230 | the j-th component of array i is named by the count of arrays up to i that use its device |
| RaidLayout.LoopsAgree | ironic_python_agent/hardware.py:3349-3393 | the k-th partition made on a device is the one the array-creation loop gives to the logical disk it was made for, and each use of a device has its partition |
| RaidLayout.CreateOnFreshDisks | ironic_python_agent/hardware.py:3349-3393 | when the commands succeed, every component of every array has the number of a partition made for that array; it is the path of that partition on a device that is named as the kernel does it, and of no partition made there otherwise; every partition made is a component; the partitions of a device have the sizes of the logical disks that use it, in order; with positive sizes and early offsets the layout of each device is sound; with up to ten logical disks, or without confusable devices, no component is in two places |
| RaidLayout.NoSharedComponent | ironic_python_agent/raid_utils.py:217-230 | no component is in two arrays, or twice in one, unless there are more than ten logical disks and two devices have confusable names |
| RaidLayout.ComponentNameInjective | ironic_python_agent/raid_utils.py:217-230 | component names tell the device and the number, unless one device's name with its delimiter is the other's followed by digits that do not start with 0 |
| RaidLayout.ConfusableNames | ironic_python_agent/raid_utils.py:217-230 | two such devices do share a component name |
| RaidLayout.NotConfusable | ironic_python_agent/raid_utils.py:217-230 | nvme names and names without a final digit are never confusable with each other |
| RaidLayout.NbdIsConfusable | ironic_python_agent/raid_utils.py:217-230 | partition 11 of /dev/nbd1 and partition 1 of /dev/nbd11 are given the same name |
| RaidLayout.UpToTenInjective | ironic_python_agent/raid_utils.py:217-230 | with numbers up to ten component names tell the device and the number, whatever the devices are |
| RaidLayout.ElevenDisks | ironic_python_agent/raid_utils.py:217-230 | eleven logical disks on these two devices: the last array and the first one share a component, so ten is the most that is safe for all devices |
| RaidLayout.AcceptedShareNothing | ironic_python_agent/hardware.py:3670-3673 | an accepted configuration leaves at most two logical disks to create, so no component is in two arrays, or twice in one, whatever the devices are |
| RaidLayout.ComponentNameIsPath | ironic_python_agent/raid_utils.py:217-230 | the component name is the partition's path exactly for nvme names that end in a digit and other names that do not |
| RaidLayout.ComponentNameIsPathOf | ironic_python_agent/raid_utils.py:217-230 | it is never the path of another partition of the device |
| RaidLayout.MmcIsMisnamed | ironic_python_agent/raid_utils.py:217-230 | the first component on /dev/mmcblk0 is named /dev/mmcblk01 and not /dev/mmcblk0p1, and whatever is made there, no component is a partition that was made |
| Names.ExtractDeviceIsTheMatch | ironic_python_agent/utils.py:921-931 | extraction is the match of the pattern: the first alternative where it matches, otherwise the second, otherwise nothing |
| Names.ExtractUndoesPath | ironic_python_agent/disk_utils.py:205-230 | extracting the device from a printed path gives it back exactly for names that are not iSCSI, not empty, of one line, and do not end in a digit and 'p' |
| Names.IscsiIsNotExtracted | ironic_python_agent/utils.py:921-931 | an iSCSI device is not extracted from the path of its partition |
| Names.SplitUndoesPath | ironic_python_agent/utils.py:934-947 | splitting gives device and decimal index back exactly when, in addition, the name does not end in a digit or is an nvme name |
| Names.MmcIsNotSplit | ironic_python_agent/utils.py:934-947 | the path of the first partition of /dev/mmcblk0 is split into the device and "p1" |
| Names.PathInjective | ironic_python_agent/disk_utils.py:212-230 | the paths of different indices differ |
| Names.SplitInjective | ironic_python_agent/utils.py:934-947 | two partitions below a directory that split alike are the same |
| Names.PathParts | ironic_python_agent/utils.py:72-72 | what is extracted from a printed path, for every name and index |
| Partitions.MakePartitions | ironic_python_agent/disk_utils.py:233-349 | the returned paths and the committed commands, for all options: the label, then the table |
| Partitions.DiskPartitioner.Commit | ironic_python_agent/disk_partitioner.py:97-113 | the committed arguments are those of the table built so far |
| Partitions.DiskPartitioner.AddPartition | ironic_python_agent/disk_partitioner.py:62-86 | appends one partition and returns its number |
| Partitions.IntervalsTile | ironic_python_agent/disk_partitioner.py:97-113 | the committed intervals are adjacent and cover exactly 1 MiB to 1 plus the sum of the sizes |
| Partitions.FlagsAreCommitted | ironic_python_agent/disk_partitioner.py:97-113 | a flag is set on number n exactly when the n-th partition has it |
| Partitions.FlagsFollow | ironic_python_agent/disk_partitioner.py:97-113 | a flag is set right after its partition is made and before the next one |
| Partitions.PathsMatchTable | ironic_python_agent/disk_utils.py:270-349 | a role has a path exactly when it is wanted; the number in its path is that of the committed partition with the role's size and file system, and of the committed commands that set the role's flags; root is last |
| Partitions.AsTheOptionsSay | ironic_python_agent/disk_utils.py:270-349 | each role is committed with the size that its own option gives, its file system and its flags |
| Partitions.RolesInOrder | ironic_python_agent/disk_utils.py:270-349 | which roles the table holds, and in which order, told from the options |
| Partitions.DistinctPaths | ironic_python_agent/disk_utils.py:270-349 | different roles get different paths |
| Partitions.OneBootFlag | ironic_python_agent/disk_utils.py:270-349 | at most one partition of the table has the boot flag |
| Partitions.OneBootCommand | ironic_python_agent/disk_utils.py:270-349 | at most one committed command sets the boot flag, for all options |
| Partitions.BootableRole | ironic_python_agent/disk_utils.py:270-349 | the options determine the only role that can carry the boot flag |
| Executor.OneBodyAtATime | ironic_python_agent/extensions/base.py:250-285 | in every run at most one command body executes, and one is started only when none is running |
| Executor.RecordedAreDone | ironic_python_agent/extensions/base.py:250-285 | all recorded commands except possibly the last are done; an unrecorded one exists only under the command lock |
| Executor.SnapshotsAreConsistent | ironic_python_agent/extensions/base.py:141-202 | a snapshot under the lock never shows a success with an error or a failure without one, and a running command shows neither result nor error |
| Executor.DoneForGood | ironic_python_agent/extensions/base.py:163-202 | a command that has left RUNNING never changes again |
| Executor.ShowsItsEnding | ironic_python_agent/extensions/base.py:171-202 | in every run, a background command that has ended shows what its body did: success with the result it returned, version mismatch or failure with the error it raised |
| Executor.ShowsItsOutcome | ironic_python_agent/extensions/base.py:250-285 | in every run, a command that ran inside execute_command shows from then on its result, or its error as a failure |
| Executor.BusyExactly | ironic_python_agent/extensions/base.py:254-262 | a new command is turned away exactly if some command is not done, though only the last one is asked |
| Executor.NeverStuck | ironic_python_agent/extensions/base.py:120-285 | every run can go on, however the running body ends, until all threads are done, and then a new command is accepted |
| Executor.NextInv | ironic_python_agent/extensions/base.py:120-285 | the invariant of all threads is kept by every step |
| Executor.InvAlways | ironic_python_agent/extensions/base.py:120-285 | the invariant holds after every schedule |
| Executor.CommandStep | ironic_python_agent/extensions/base.py:171-202 | one step of a background thread keeps a command's fields consistent with how far it has come |
| Heartbeat.TwelveRetries | ironic_python_agent/agent.py:79-88 | with a timeout of 300 s, if all attempts after a success fail, at least 12 retries follow the first failure within 300 s, for every jitter and every forcing |
| Heartbeat.NoMoreThanTwelve | ironic_python_agent/agent.py:79-88 | with the largest jitter there are never more, so the bound is exact |
| Heartbeat.AttemptsApart | ironic_python_agent/agent.py:113-171 | two attempts are never closer than the smaller of 5 s and 0.3 times the timeout |
| Heartbeat.JitteredInterval | ironic_python_agent/agent.py:113-171 | if nothing is forced, the next attempt comes when the interval with that round's own jitter is over, at most 0.1 s later: the timeout times the jitter after a success, 5 s times the jitter after a failure |
| Heartbeat.ForcedIsTried | ironic_python_agent/agent.py:113-143 | each check comes at most 5 s after the top of the loop, and when the interval is over or at least 5.1 s have passed; so a forced heartbeat is tried at the next check |
| Heartbeat.LateForce | ironic_python_agent/agent.py:145-174 | a heartbeat that is forced while one is being sent is tried at the next check if the sending fails, and lost if it succeeds: the state is then as if nothing had been forced meanwhile |
| Heartbeat.ForcedUntilSuccess | ironic_python_agent/agent.py:104-174 | over whole runs a forced heartbeat is outstanding exactly if none has succeeded since it was forced, one in the middle of which it was forced included, and while it is outstanding every next round tries |
| Heartbeat.RetriesFit | ironic_python_agent/agent.py:113-171 | as many retries fall before a deadline as fit when each comes as late as it can |
| Heartbeat.Heartbeater.RunNext | ironic_python_agent/agent.py:113-132 | one round is one step of the timed machine |
| Heartbeat.Heartbeater.DoHeartbeat | ironic_python_agent/agent.py:145-171 | the new interval after success and failure, and what becomes of a heartbeat that was forced before or while it is sent |
| Heartbeat.Heartbeater.RunLoop | ironic_python_agent/agent.py:104-111 | the loop runs the machine and attempts exactly where it says |
| Download.Download | ironic_python_agent/extensions/standby.py:741-800 | at most retries + 1 attempts; the last one is the first that delivers the image, finds no space for a file, or fails fatally, if there is one; success exactly if it delivers; then the file is the concatenation of its chunks, its digest the expected value, the counter its length; on a device the same of the prefix |
| Download.OutcomeMeaning | ironic_python_agent/extensions/standby.py:653-780 | how an attempt ends, told from its items: it delivers exactly if every item comes in time, is written, and the digest is right; it is out of space exactly if a file write is the first to fail, for lack of space; which ends are fatal |
| Download.Fetch | ironic_python_agent/extensions/standby.py:931-963 | one attempt of either form ends as its chunks, times and writes dictate, and leaves the verified image when it succeeds |
| Download.TransferAll | ironic_python_agent/extensions/standby.py:753-780 | what is written, what is hashed and what is counted is the same prefix of the response |
| Download.ImageDownload.Step | ironic_python_agent/extensions/standby.py:662-699 | one item: over time, hashed and yielded, or tolerated while empty |
| Download.Target.Write | ironic_python_agent/extensions/standby.py:755-769 | a write overwrites from the position on and keeps what is before and after |
| Lldp.ParseTlv | ironic_python_agent/netutils.py:154-173 | the loop computes the parse of the whole packet |
| Lldp.MasksDivide | ironic_python_agent/netutils.py:154-173 | the masks and the shift on 16-bit words are division and remainder by 512 |
| Lldp.SplitHeader | ironic_python_agent/netutils.py:154-173 | division and remainder give the type and the nine-bit length that make up a header |
| Lldp.ParseInvertsEncode | ironic_python_agent/netutils.py:154-173 | parsing the encoding of any encodable list followed by b gives the list followed by the parse of b |
| Lldp.EncodeInvertsParse | ironic_python_agent/netutils.py:154-173 | encoding the parse and appending the trailing byte gives the packet back exactly when no header declares more than is left |
| Lldp.TruncatedPacket | ironic_python_agent/netutils.py:154-173 | a packet that declares seven bytes and holds one is encoded with length one |
| Lldp.ParsedEncodable | ironic_python_agent/netutils.py:154-173 | every parsed list can be encoded |
| Lldp.EveryByteCounts | ironic_python_agent/netutils.py:154-173 | headers, values and at most one trailing byte account for every byte |
| Lldp.ValuesAreSlices | ironic_python_agent/netutils.py:154-173 | each value is the slice after its header, of the declared length unless it is the last |
| Steps.GetManagersDetail | ironic_python_agent/hardware.py:3952-3981 | the eligible managers, each as often as found, by descending support, those with the same support in the order found; an error exactly when there is none |
| Steps.DispatchToManagers | ironic_python_agent/hardware.py:4031-4072 | the first manager that has the method and does not decline decides; its support is the highest of those that answer |
| Steps.DispatchToAllManagers | ironic_python_agent/hardware.py:3984-4028 | the responses of all managers, or the first failure, or that nobody answered |
| Steps.ResponsesMeaning | ironic_python_agent/hardware.py:4003-4028 | the dictionary holds exactly the answering managers' answers |
| Steps.DeduplicateSteps | ironic_python_agent/hardware.py:4155-4199 | grouping, sorting and collecting give the winners by manager; fails exactly when a manager with steps has unknown support |
| Steps.SurvivesOnce | ironic_python_agent/hardware.py:4178-4199 | every step name that is offered survives, and survives once |
| Steps.KeptIsWinner | ironic_python_agent/hardware.py:4178-4199 | a step survives under a manager exactly when it is the winner among the candidates of its name |
| Steps.WinnerIsBest | ironic_python_agent/hardware.py:4151-4172 | the winner has the highest support, then the highest priority, then the earliest name |
| Steps.WinnerIsFirst | ironic_python_agent/hardware.py:4151-4172 | of candidates that tie in all this the one listed first |
| Steps.OrderIrrelevant | ironic_python_agent/hardware.py:4155-4199 | the same steps survive under the same managers for every order of the managers' answers, even where a manager lists a step twice |
| Steps.FirstListed | ironic_python_agent/hardware.py:3970-4028 | in dispatch order, the winner has the support of the first manager that lists the step |
| Steps.SortedIsSorted | ironic_python_agent/hardware.py:3970-3971 | sorting by a total order gives an ordered permutation |
| Steps.SortedIsStable | ironic_python_agent/hardware.py:3970-3971 | elements that compare equal keep their order |
| Erase.EraseBlockDevice | ironic_python_agent/hardware.py:1992-2064 | returns normally exactly when the device may be skipped or its last command was a successful format, ATA erase or shred; shreds after a failed secure erase only where the switches allow it; says which error is raised when |
| Erase.AtaErase | ironic_python_agent/hardware.py:2419-2491 | the erase is issued only to an unlocked, unfrozen drive with a password; true exactly after a successful erase and a re-read "not enabled"; false exactly for a device without ATA security, which is left alone; why it raises |
| Erase.EraseUnlocked | ironic_python_agent/hardware.py:2449-2491 | sets a password if there is none, erases and checks |
| Erase.EraseAndCheck | ironic_python_agent/hardware.py:2464-2491 | after a failed erase the drive is not left locked before both passwords were tried |
| Erase.AttemptUnlockDrive | ironic_python_agent/hardware.py:2395-2417 | passwords are tried on locked drives only, NULL first, and a drive is given up as locked only after both |
| Erase.NvmeErase | ironic_python_agent/hardware.py:2504-2568 | true exactly after a successful format; the format is issued exactly if the controller supports it, as a crypto erase exactly if it supports that |
| Erase.SecureErase | ironic_python_agent/hardware.py:2018-2030 | which secure erase is tried, and that nothing is done where it is switched off |

## Left out

- Running commands and parsing their output (parted, mdadm, lsblk, sgdisk, hdparm, nvme, shred, fio): commands are recorded and their results come from the environment.
- The matching of device hints: it is an arbitrary function from a hint to its candidates.
- Pairing: a crash of a node, the creation of the group and the group drivers' own failures; a node may find its time over at any test of the clock, which covers every timing; nodes and commands are values in a state machine rather than objects, so that steps of different threads can interleave.
- DeletePass.Protection: requires that the reports agree with each other and that array components are partitions and not arrays, as the agent itself creates them; the name of a whole-disk component is not recognised.
- The second pass of the deletion: it is given only the arrays still to be deleted, so the protection of one pass over all arrays says nothing about it.
- Creating missing arrays on disks that still hold kept ones: their partition tables are written anew, so the layout results are about fresh disks.
- The failure and the re-adding of members when mdadm creates an array, and the number parted gives to a partition: on a fresh table these are taken to be in the order of creation.
- Reconcile.CreateRaidIgnoreList: the list of block devices holds each device once, as the code that collects it makes sure (ironic_python_agent/hardware.py:582-585).
- RaidTarget.ValidateConfiguration: a missing configuration, which is reported without an error, and hints of the wrong type are not modelled.
- Heartbeat.TwelveRetries: API calls take no time and waits are exact; times are exact reals instead of floating point numbers.
- Names.ExtractDeviceIsTheMatch: digits are the ASCII digits, the pattern also accepts those of other scripts.
- Download.Download: the constructor of the download object, with its URLs, checksums and credentials, is reduced to how it can end; the digest is an arbitrary function; a failure to close a file is not modelled.
- The cache of the image on disk: neither streaming nor a failed write updates it, so no clean invariant holds.
- Steps.FirstListed: the managers' class names are taken to be different; of two equal names the later answer replaces the earlier one.
- Erase.AtaErase: only commands change the state of the drive; a device that is unplugged or power-cycled in between is not modelled.
- The collection of LLDP packets from sockets before they are parsed, and the hand-over to inspection.
- The HTTP API, TLS, mDNS, configuration, metrics, kernel parameters, virtual media, boot loaders, EFI and config drives, inspection collectors, vendor and container managers, URL rotation, root disk guessing and NUMA grouping: plumbing or single branches.
