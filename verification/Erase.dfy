/** Erasing one block device: ATA secure erase, NVMe format and shred, with the fallbacks between
    them.  The device answers each command in any way its ATA security state allows; every command
    is logged together with the state it met. */
module Erase {
  import opened Wrappers

  /** The security states of a powered drive. */
  datatype Security = SEC1 | SEC2 | SEC4 | SEC5 | SEC6 {

    predicate Enabled() { SEC4? || SEC5? || SEC6? }      // a password is set

    predicate Locked() { SEC4? }

    predicate Frozen() { SEC2? || SEC6? }
  }

  /** The lines of the security section that matter here. */
  datatype Line =
    | Supported | NotSupported
    | Enabled | NotEnabled
    | Locked | NotLocked
    | Frozen | NotFrozen
    | EnhancedErase | NoEnhancedErase

  datatype Password = NullPassword | EmptyPassword

  datatype SmartctlAnswer = Fine | Unavailable | Failed | Missing

  datatype NvmeAnswer = NoCapabilities | Unreadable | NoInformation | Information(oacs: bv16, fna: bv8)

  datatype Event =
    | Identify(state: Security)
    | IdentifyFailed
    | Unlock(password: Password, before: Security)
    | SetPassword(before: Security, ok: bool)
    | EraseUnit(enhanced: bool, before: Security, ok: bool)
    | Format(mode: nat, ok: bool)
    | Shred(ok: bool)

  /** The part of a device that does not change. */
  datatype Features = Features(section: bool, supported: bool, enhanced: bool, smartctl: SmartctlAnswer,
      nvme: NvmeAnswer)

  function Report(f: Features, s: Security): seq<Line> {
    if !f.section then [] else
      [ if f.supported then Supported else NotSupported,
        if s.Enabled() then Enabled else NotEnabled,
        if s.Locked() then Locked else NotLocked,
        if s.Frozen() then Frozen else NotFrozen,
        if f.enhanced then EnhancedErase else NoEnhancedErase ]
  }

  class Device {
    const features: Features
    var state: Security
    var log: seq<Event>

    constructor (features: Features, state: Security)
      ensures this.features == features && this.state == state && log == []
    {
      this.features, this.state, log := features, state, [];
    }

    /** The security lines, or None when the tool fails. */
    method GetAtaSecurityLines() returns (lines: Option<seq<Line>>)
      modifies `log
      ensures lines.None? ==> log == old(log) + [IdentifyFailed]
      ensures lines.Some? ==> log == old(log) + [Identify(state)] && lines.value == Report(features, state)
    {
      if * {
        log := log + [IdentifyFailed];
        lines := None;
      } else {
        log := log + [Identify(state)];
        lines := Some(Report(features, state));
      }
    }

    /** Only a locked drive can change state; the exit code says nothing sure. */
    method SecurityUnlock(password: Password) returns (ok: bool)
      modifies this
      ensures log == old(log) + [Unlock(password, old(state))]
      ensures state == old(state) || (old(state) == SEC4 && state == SEC5)
    {
      log := log + [Unlock(password, state)];
      ok := *;
      if * { if state == SEC4 { state := SEC5; } }
    }

    /** Aborted by a locked or frozen drive; a success leaves a password set. */
    method SecuritySetPassword() returns (ok: bool)
      modifies this
      ensures log == old(log) + [SetPassword(old(state), ok)]
      ensures state == old(state) || (old(state) == SEC1 && state == SEC5)
      ensures ok ==> state == SEC5
    {
      ok := *;
      if state != SEC1 && state != SEC5 { ok := false; }
      log := log + [SetPassword(state, ok)];
      if ok {
        state := SEC5;
      } else if * {
        if state == SEC1 { state := SEC5; }
      }
    }

    /** Whether it succeeds or not, an erase can leave the password in place and the drive locked. */
    method SecurityErase(enhanced: bool) returns (ok: bool)
      modifies this
      ensures log == old(log) + [EraseUnit(enhanced, old(state), ok)]
      ensures if old(state) in {SEC4, SEC5} then state in {SEC1, SEC4, SEC5} else !ok && state == old(state)
    {
      ok := *;
      if state != SEC4 && state != SEC5 { ok := false; }
      log := log + [EraseUnit(enhanced, state, ok)];
      if state == SEC4 || state == SEC5 {
        if * { state := SEC1; } else if * { state := SEC4; } else { state := SEC5; }
      }
    }

    method NvmeFormat(mode: nat) returns (ok: bool)
      modifies `log
      ensures log == old(log) + [Format(mode, ok)]
    {
      ok := *;
      log := log + [Format(mode, ok)];
    }

    method RunShred() returns (ok: bool)
      modifies `log
      ensures log == old(log) + [Shred(ok)]
    {
      ok := *;
      log := log + [Shred(ok)];
    }
  }

  datatype Outcome =
    | Done(erased: bool)
    | EraseError                   // BlockDeviceEraseError
    | IncompatibleError            // IncompatibleHardwareMethodError
    | ToolError                    // an error of a tool that nobody catches

  predicate SmartctlSecurityCheck(answer: SmartctlAnswer) {
    answer.Fine? || answer.Missing?
  }

  /** The device can be erased by ATA commands at all. */
  predicate Capable(f: Features) {
    f.section && f.supported && f.smartctl !in {Unavailable, Failed}
  }

  // ----- What the log may hold -----

  predicate IsRead(e: Event) {
    e.Identify? || e.IdentifyFailed?
  }

  /** Unlocking is tried on locked drives only. */
  predicate IsUnlocking(e: Event) {
    IsRead(e) || (e.Unlock? && e.before == SEC4)
  }

  predicate Unlocking(events: seq<Event>) {
    forall e :: e in events ==> IsUnlocking(e)
  }

  /** NULL was tried, and after it the empty password. */
  predicate BothTried(events: seq<Event>) {
    exists i, j :: 0 <= i < j < |events| && events[i] == Unlock(NullPassword, SEC4) &&
      events[j] == Unlock(EmptyPassword, SEC4)
  }

  lemma {:induction false} BothTriedLater(prefix: seq<Event>, events: seq<Event>)
    requires BothTried(events)
    ensures BothTried(prefix + events)
  {
    var i, j :| 0 <= i < j < |events| && events[i] == Unlock(NullPassword, SEC4) &&
      events[j] == Unlock(EmptyPassword, SEC4);
    assert (prefix + events)[|prefix| + i] == events[i] && (prefix + events)[|prefix| + j] == events[j];
  }

  predicate ReadFailed(events: seq<Event>) {
    events != [] && events[|events| - 1] == IdentifyFailed
  }

  /** A password is set on a drive without one, an erase is issued to an unlocked, unfrozen drive with a password. */
  predicate Safe(events: seq<Event>, f: Features) {
    forall e :: e in events ==>
      || IsUnlocking(e)
      || (e.SetPassword? && e.before == SEC1)
      || (e.EraseUnit? && e.before == SEC5 && e.enhanced == f.enhanced)
  }

  /** The last two commands: an erase that succeeded, and a report that the password is gone. */
  predicate AtaErased(events: seq<Event>) {
    |events| >= 2 && events[|events| - 2].EraseUnit? && events[|events| - 2].ok &&
      events[|events| - 1] == Identify(SEC1)
  }

  lemma {:induction false} ReportLocked(f: Features, s: Security)
    requires f.section
    ensures NotLocked in Report(f, s) <==> s != SEC4
    ensures NotFrozen in Report(f, s) <==> !s.Frozen()
    ensures NotEnabled in Report(f, s) <==> !s.Enabled()
    ensures Supported in Report(f, s) <==> f.supported
    ensures NoEnhancedErase in Report(f, s) <==> !f.enhanced
    ensures Report(f, s) != []
  {
  }

  /** One password, and a new look at the drive. */
  method TryPassword(device: Device, password: Password) returns (lines: Option<seq<Line>>, ghost events: seq<Event>)
    requires device.state == SEC4
    modifies device
    ensures device.log == old(device.log) + events && (device.state == SEC4 || device.state == SEC5)
    ensures events == [Unlock(password, SEC4), if lines.Some? then Identify(device.state) else IdentifyFailed]
    ensures lines.Some? ==> lines.value == Report(device.features, device.state)
  {
    var ok := device.SecurityUnlock(password);
    lines := device.GetAtaSecurityLines();
    events := [Unlock(password, SEC4), if lines.Some? then Identify(device.state) else IdentifyFailed];
  }

  /** Tries to unlock the drive; an empty list of lines is read first. */
  method AttemptUnlockDrive(device: Device, given: seq<Line>)
      returns (lines: Option<seq<Line>>, ghost events: seq<Event>)
    requires device.features.section && (given == [] || given == Report(device.features, device.state))
    modifies device
    ensures device.log == old(device.log) + events && Unlocking(events)
    ensures device.state == old(device.state) || (old(device.state) == SEC4 && device.state == SEC5)
    ensures lines.None? <==> ReadFailed(events)
    ensures lines.Some? ==> lines.value == Report(device.features, device.state)
    ensures lines.Some? && device.state == SEC4 ==> BothTried(events)
    ensures if given == [] then events != [] else lines.Some? && old(device.state) != SEC4 ==> events == []
  {
    lines, events := Some(given), [];
    if given == [] {
      lines := device.GetAtaSecurityLines();
      if lines.None? { return None, [IdentifyFailed]; }
      events := [Identify(device.state)];
    }
    ghost var tried: seq<Event>;
    lines, tried := TryPasswords(device, lines.value);
    ghost var first := events;
    events := first + tried;
    if BothTried(tried) { BothTriedLater(first, tried); }
    assert tried == [] ==> events == first;
  }

  /** The loop over the passwords. */
  method TryPasswords(device: Device, given: seq<Line>) returns (lines: Option<seq<Line>>, ghost events: seq<Event>)
    requires device.features.section && given == Report(device.features, device.state)
    modifies device
    ensures device.log == old(device.log) + events && Unlocking(events)
    ensures device.state == old(device.state) || (old(device.state) == SEC4 && device.state == SEC5)
    ensures lines.None? <==> ReadFailed(events)
    ensures lines.Some? ==> lines.value == Report(device.features, device.state)
    ensures lines.Some? && device.state == SEC4 ==> BothTried(events)
    ensures old(device.state) != SEC4 ==> events == []
  {
    lines, events := Some(given), [];
    var passwords := [NullPassword, EmptyPassword];
    for i := 0 to |passwords|
      invariant device.log == old(device.log) + events && Unlocking(events) && !ReadFailed(events)
      invariant device.state == old(device.state) || (old(device.state) == SEC4 && device.state == SEC5)
      invariant lines == Some(Report(device.features, device.state))
      invariant i > 0 && device.state == SEC4 ==> |events| > 0 && events[0] == Unlock(NullPassword, SEC4)
      invariant i > 1 && device.state == SEC4 ==> |events| > 2 && events[2] == Unlock(EmptyPassword, SEC4)
      invariant |events| <= 2 * i && (device.state == SEC4 ==> |events| == 2 * i)
      invariant old(device.state) != SEC4 ==> events == []
    {
      ReportLocked(device.features, device.state);
      if NotLocked in lines.value { break; }
      ghost var attempt;
      lines, attempt := TryPassword(device, passwords[i]);
      events := events + attempt;
      if lines.None? { return; }
    }
  }

  // ----- ATA secure erase -----

  ghost predicate FailedErase(events: seq<Event>, after: Security, i: nat) {
    i < |events| && events[i].EraseUnit? && !events[i].ok && (after == SEC4 ==> BothTried(events[i + 1..]))
  }

  /** Why an erase of an unlocked drive is given up: the password could not be set; or the erase failed, and
      then the drive is not left locked before both passwords were tried; or the password is still there. */
  ghost predicate GivenUp(events: seq<Event>, after: Security) {
    || (events != [] && events[|events| - 1] == SetPassword(SEC1, false))
    || (exists i :: FailedErase(events, after, i))
    || (|events| >= 2 && events[|events| - 2].EraseUnit? && events[|events| - 2].ok &&
      events[|events| - 1] == Identify(after) && after != SEC1)
  }

  /** Why a drive that is not frozen is not erased. */
  ghost predicate StillLocked(events: seq<Event>, after: Security) {
    after == SEC4 && BothTried(events) && Unlocking(events)
  }

  /** Why an ATA erase is given up. */
  ghost predicate Refused(events: seq<Event>, before: Security, after: Security) {
    || (before.Frozen() && events == [Identify(before)])
    || StillLocked(events, after)
    || GivenUp(events, after)
  }

  /** Sets a password if there is none, erases, and checks that the password is gone. */
  method EraseUnlocked(device: Device, lines: seq<Line>) returns (outcome: Outcome, ghost events: seq<Event>)
    requires device.features.section && lines == Report(device.features, device.state)
    requires device.state in {SEC1, SEC5}
    modifies device
    ensures device.log == old(device.log) + events && Safe(events, device.features) && events != []
    ensures outcome == Done(true) <==> AtaErased(events)
    ensures outcome == Done(true) ==> device.state == SEC1
    ensures outcome == ToolError <==> ReadFailed(events)
    ensures outcome == EraseError ==> GivenUp(events, device.state)
    ensures outcome.Done? ==> outcome.erased
    ensures outcome != IncompatibleError
  {
    ReportLocked(device.features, device.state);
    events := [];
    if NotEnabled in lines {
      var isSet := device.SecuritySetPassword();
      events := [SetPassword(SEC1, isSet)];
      if !isSet { return EraseError, events; }
    }
    ghost var prefix := events;
    outcome, events := EraseAndCheck(device, NoEnhancedErase !in lines);
    Prefixed(prefix, events, device.state);
    events := prefix + events;
  }

  lemma {:induction false} NotErased(issued: Event, unlocking: seq<Event>)
    requires issued.EraseUnit? && !issued.ok && Unlocking(unlocking) && unlocking != []
    ensures ([issued] + unlocking)[1..] == unlocking && !AtaErased([issued] + unlocking)
    ensures ReadFailed([issued] + unlocking) <==> ReadFailed(unlocking)
  {
    if |unlocking| >= 2 { assert IsUnlocking(unlocking[|unlocking| - 2]); }
  }

  method EraseAndCheck(device: Device, enhanced: bool) returns (outcome: Outcome, ghost events: seq<Event>)
    requires device.features.section && device.state == SEC5 && enhanced == device.features.enhanced
    modifies device
    ensures device.log == old(device.log) + events && Safe(events, device.features) && |events| >= 2
    ensures outcome == Done(true) <==> AtaErased(events)
    ensures outcome == Done(true) ==> device.state == SEC1
    ensures outcome == ToolError <==> ReadFailed(events)
    ensures outcome == EraseError ==> GivenUp(events, device.state)
    ensures outcome.Done? ==> outcome.erased
    ensures outcome != IncompatibleError
  {
    var ok := device.SecurityErase(enhanced);
    ghost var issued := EraseUnit(enhanced, SEC5, ok);
    var lines;
    if !ok {
      ghost var unlocking;
      lines, unlocking := AttemptUnlockDrive(device, []);
      events := [issued] + unlocking;
      NotErased(issued, unlocking);
      if lines.None? { return ToolError, events; }
      assert FailedErase(events, device.state, 0);
      return EraseError, events;
    }
    lines := device.GetAtaSecurityLines();
    if lines.None? { return ToolError, [issued, IdentifyFailed]; }
    events := [issued, Identify(device.state)];
    ReportLocked(device.features, device.state);
    outcome := if NotEnabled !in lines.value then EraseError else Done(true);
  }

  /** What comes before the commands that matter changes nothing about them. */
  lemma {:induction false} Prefixed(prefix: seq<Event>, events: seq<Event>, after: Security)
    requires events != [] && forall e :: e in prefix ==> !e.EraseUnit?
    ensures AtaErased(prefix + events) <==> AtaErased(events)
    ensures ReadFailed(prefix + events) <==> ReadFailed(events)
    ensures GivenUp(events, after) ==> GivenUp(prefix + events, after)
    ensures StillLocked(events, after) && Unlocking(prefix) ==> StillLocked(prefix + events, after)
  {
    if BothTried(events) { BothTriedLater(prefix, events); }
    if |events| == 1 && prefix != [] { assert !prefix[|prefix| - 1].EraseUnit?; }
    if i :| FailedErase(events, after, i) {
      assert (prefix + events)[|prefix| + i + 1..] == events[i + 1..];
      assert FailedErase(prefix + events, after, |prefix| + i);
    }
  }

  /** The part after the checks that send no command. */
  method UnlockAndErase(device: Device, lines: seq<Line>) returns (outcome: Outcome, ghost events: seq<Event>)
    requires device.features.section && lines == Report(device.features, device.state) && !device.state.Frozen()
    modifies device
    ensures device.log == old(device.log) + events && Safe(events, device.features) && events != []
    ensures outcome == Done(true) <==> AtaErased(events)
    ensures outcome == Done(true) ==> device.state == SEC1
    ensures outcome == ToolError <==> ReadFailed(events)
    ensures outcome == EraseError ==> StillLocked(events, device.state) || GivenUp(events, device.state)
    ensures outcome.Done? ==> outcome.erased
    ensures outcome != IncompatibleError
  {
    ReportLocked(device.features, device.state);
    var unlocked;
    unlocked, events := AttemptUnlockDrive(device, lines);
    if unlocked.None? { return ToolError, events; }
    ReportLocked(device.features, device.state);
    if NotLocked !in unlocked.value { return EraseError, events; }
    ghost var prefix, rest := events, [];
    outcome, rest := EraseUnlocked(device, unlocked.value);
    Prefixed(prefix, rest, device.state);
    events := prefix + rest;
  }

  /** ATA secure erase.  It returns true exactly after an erase that succeeded and a report that the password is
      gone, and false exactly for a device that cannot be erased this way, which is then left alone. */
  method AtaErase(device: Device) returns (outcome: Outcome, ghost events: seq<Event>)
    modifies device
    ensures device.log == old(device.log) + events && Safe(events, device.features)
    ensures outcome == Done(true) <==> AtaErased(events)
    ensures outcome == Done(true) ==> device.state == SEC1
    ensures outcome == Done(false) <==> !Capable(device.features) && !ReadFailed(events)
    ensures !Capable(device.features) ==> |events| == 1 && device.state == old(device.state)
    ensures outcome == ToolError <==> ReadFailed(events)
    ensures outcome == EraseError ==> Refused(events, old(device.state), device.state)
    ensures outcome != IncompatibleError
  {
    var lines := device.GetAtaSecurityLines();
    if lines.None? { return ToolError, [IdentifyFailed]; }
    events := [Identify(device.state)];
    if device.features.section { ReportLocked(device.features, device.state); }
    if !SmartctlSecurityCheck(device.features.smartctl) || Supported !in lines.value { return Done(false), events; }
    if NotFrozen !in lines.value { return EraseError, events; }
    ghost var first, rest := events, [];
    outcome, rest := UnlockAndErase(device, lines.value);
    Prefixed(first, rest, device.state);
    events := first + rest;
  }

  // ----- NVMe format and shred -----

  /** The strongest format the controller offers: 2 is a crypto erase, 1 an erase of the user data. */
  function FormatMode(a: NvmeAnswer): Option<nat> {
    match a
    case Information(oacs, fna) => if oacs & 2 == 0 then None else if fna & 4 != 0 then Some(2) else Some(1)
    case _ => None
  }

  /** The controller offers no format, or the one that was tried failed. */
  predicate NvmeRefused(events: seq<Event>, a: NvmeAnswer) {
    match FormatMode(a)
    case None => events == []
    case Some(mode) => events == [Format(mode, false)]
  }

  method NvmeErase(device: Device) returns (outcome: Outcome, ghost events: seq<Event>)
    modifies device`log
    ensures device.log == old(device.log) + events
    ensures device.features.nvme.Unreadable? <==> outcome == ToolError
    ensures outcome == Done(true) <==>
      (exists m :: FormatMode(device.features.nvme) == Some(m) && events == [Format(m, true)])
    ensures outcome == EraseError ==> NvmeRefused(events, device.features.nvme)
    ensures device.features.nvme.Information? ==>
      var formats, crypto := (device.features.nvme.oacs >> 1) & 1 == 1, (device.features.nvme.fna >> 2) & 1 == 1;
      events == if formats then [Format(if crypto then 2 else 1, outcome == Done(true))] else []
    ensures outcome in {Done(true), EraseError, ToolError} && (outcome == ToolError ==> events == [])
  {
    events := [];
    match device.features.nvme
    case NoCapabilities => return EraseError, [];
    case Unreadable => return ToolError, [];
    case NoInformation => return EraseError, [];
    case Information(oacs, fna) =>
      if oacs & 2 == 0 { return EraseError, []; }
      var mode := if fna & 4 != 0 then 2 else 1;
      var ok := device.NvmeFormat(mode);
      return if ok then Done(true) else EraseError, [Format(mode, ok)];
  }

  // ----- The whole -----

  datatype BlockDevice = BlockDevice(virtualMedia: bool, raidMember: bool, readOnly: bool, nvme: bool)

  /** The switches of the node that matter, where they are set. */
  datatype NodeInfo = NodeInfo(
    skipReadOnly: Option<bool>,
    enableNvme: Option<bool>,
    enableAta: Option<bool>,
    continueIfSecureEraseFailed: Option<bool>,
    continueIfAtaEraseFailed: Option<bool>)

  predicate Skipped(b: BlockDevice, info: NodeInfo) {
    b.virtualMedia || b.raidMember || (b.readOnly && info.skipReadOnly.GetOr(false))
  }

  predicate SecureEnabled(b: BlockDevice, info: NodeInfo) {
    if b.nvme then info.enableNvme.GetOr(true) else info.enableAta.GetOr(true)
  }

  /** The older switch counts only where the newer one is not set. */
  predicate MayContinue(info: NodeInfo) {
    info.continueIfSecureEraseFailed.GetOr(info.continueIfAtaEraseFailed.GetOr(false))
  }

  /** The data is gone: the last thing done to the device is a successful format, ATA erase or shred. */
  predicate Erased(events: seq<Event>) {
    AtaErased(events) || (events != [] &&
      (events[|events| - 1] == Shred(true) || (events[|events| - 1].Format? && events[|events| - 1].ok)))
  }

  predicate Shredded(events: seq<Event>) {
    exists ok :: Shred(ok) in events
  }

  lemma {:induction false} SafeErased(events: seq<Event>, f: Features)
    requires Safe(events, f)
    ensures Erased(events) <==> AtaErased(events)
    ensures !Shredded(events)
  {
    if events != [] { assert events[|events| - 1] in events; }
  }

  /** Why the secure erase of either kind is given up. */
  ghost predicate SecureRefused(b: BlockDevice, events: seq<Event>, f: Features, before: Security, after: Security) {
    if b.nvme then NvmeRefused(events, f.nvme) else Refused(events, before, after)
  }

  predicate SecureToolFailed(b: BlockDevice, events: seq<Event>, f: Features) {
    if b.nvme then f.nvme.Unreadable? else ReadFailed(events)
  }

  /** The secure erase, if it is enabled at all. */
  method SecureErase(b: BlockDevice, info: NodeInfo, device: Device)
      returns (outcome: Outcome, ghost events: seq<Event>)
    modifies device
    ensures device.log == old(device.log) + events
    ensures !Shredded(events) && (!b.nvme ==> Safe(events, device.features))
    ensures outcome == Done(true) <==> Erased(events)
    ensures outcome == Done(false) ==> !SecureEnabled(b, info) || (!b.nvme && !Capable(device.features))
    ensures !SecureEnabled(b, info) ==> outcome == Done(false) && events == []
    ensures outcome == EraseError ==> SecureRefused(b, events, device.features, old(device.state), device.state)
    ensures outcome == ToolError <==> SecureEnabled(b, info) && SecureToolFailed(b, events, device.features)
    ensures outcome != IncompatibleError
  {
    if b.nvme {
      if info.enableNvme.GetOr(true) {
        outcome, events := NvmeErase(device);
      } else {
        outcome, events := Done(false), [];
      }
    } else {
      if info.enableAta.GetOr(true) {
        outcome, events := AtaErase(device);
        SafeErased(events, device.features);
      } else { outcome, events := Done(false), []; }
    }
  }

  /** Erasing a block device.  It returns normally exactly when the device may be skipped or has been erased. */
  method EraseBlockDevice(b: BlockDevice, info: NodeInfo, device: Device)
      returns (outcome: Outcome, ghost events: seq<Event>)
    modifies device
    ensures device.log == old(device.log) + events
    ensures outcome.Done? <==> Skipped(b, info) || Erased(events)
    ensures Skipped(b, info) || b.readOnly ==> events == []
    ensures !Skipped(b, info) && b.readOnly ==> outcome == EraseError
    ensures outcome == EraseError ==> !Skipped(b, info) && b.readOnly
    ensures Shredded(events) ==>
      !SecureEnabled(b, info) || MayContinue(info) || (!b.nvme && !Capable(device.features))
    ensures outcome == IncompatibleError ==>
      if Shredded(events) then events[|events| - 1] == Shred(false)
      else
        && SecureEnabled(b, info) && !MayContinue(info)
        && SecureRefused(b, events, device.features, old(device.state), device.state)
    ensures outcome == ToolError <==>
      !Skipped(b, info) && !b.readOnly && SecureEnabled(b, info) && SecureToolFailed(b, events, device.features)
    ensures !b.nvme ==> forall e :: e in events && e.EraseUnit? ==> e.before == SEC5
  {
    if b.virtualMedia || b.raidMember { return Done(true), []; }
    if b.readOnly {
      return if info.skipReadOnly.GetOr(false) then Done(true) else EraseError, [];
    }
    outcome, events := SecureErase(b, info, device);
    if outcome == Done(true) || outcome == ToolError { return; }
    if outcome == EraseError {
      var executeShred := info.continueIfSecureEraseFailed;
      if executeShred.None? { executeShred := Some(info.continueIfAtaEraseFailed.GetOr(false)); }
      if !executeShred.value { return IncompatibleError, events; }
    }
    var ok := device.RunShred();
    events := events + [Shred(ok)];
    outcome := if ok then Done(true) else IncompatibleError;
  }
}
