/** Partition names: printing a partition path from a device and an index, and taking a
    partition path apart again.  Digits are the ASCII digits. */
module Names {
  import opened Wrappers

  const ISCSI_PREFIX := "iqn.2008-10.org.openstack:"

  predicate IsDigit(c: char) {
    '0' <= c <= '9'
  }

  predicate AllDigits(s: string) {
    forall i :: 0 <= i < |s| ==> IsDigit(s[i])
  }

  predicate EndsInDigit(s: string) {
    s != "" && IsDigit(s[|s| - 1])
  }

  predicate OccursAt(s: string, sub: string, i: nat) {
    i + |sub| <= |s| && s[i..i + |sub|] == sub
  }

  predicate Contains(s: string, sub: string) {
    exists i: nat :: i <= |s| && OccursAt(s, sub, i)
  }

  function Digit(d: nat): (c: char)
    requires d < 10
    ensures IsDigit(c) && c as int - '0' as int == d
  {
    ('0' as int + d) as char
  }

  /** Decimal printing, as '%d' does it. */
  function Decimal(n: nat): string {
    if n < 10 then [Digit(n)] else Decimal(n / 10) + [Digit(n % 10)]
  }

  function PartitionIndexToPath(device: string, index: nat): string {
    if Contains(device, ISCSI_PREFIX) then device + "-part" + Decimal(index)
    else if EndsInDigit(device) then device + "p" + Decimal(index)
    else device + Decimal(index)
  }

  /** The string without its trailing digits. */
  function Stem(s: string): (stem: string)
    ensures stem <= s && !EndsInDigit(stem) && AllDigits(s[|stem|..])
  {
    if EndsInDigit(s) then Stem(s[..|s| - 1]) else s
  }

  /** The pattern's '$' also matches before a final newline. */
  function Chomp(s: string): string {
    if s != "" && s[|s| - 1] == '\n' then s[..|s| - 1] else s
  }

  predicate EndsInDigitP(s: string) {
    |s| >= 2 && s[|s| - 1] == 'p' && IsDigit(s[|s| - 2])
  }

  /** The pattern's '.*' matches no newline, its final '\D' does. */
  predicate OneLine(s: string) {
    s != "" ==> '\n' !in s[..|s| - 1]
  }

  function ExtractDevice(part: string): Option<string> {
    var body := Chomp(part);
    var stem := Stem(body);
    if stem == body || stem == "" || !OneLine(stem) then None
    else if EndsInDigitP(stem) then Some(stem[..|stem| - 1])
    else Some(stem)
  }

  /** Python's s.replace(old, ''). */
  function Without(s: string, target: string): string
    requires target != ""
  {
    if |s| < |target| then s
    else if s[..|target|] == target then Without(s[|target|..], target)
    else [s[0]] + Without(s[1..], target)
  }

  lemma {:induction false} WithoutAbsent(s: string, target: string, c: char)
    requires c in target && c !in s
    ensures Without(s, target) == s
  {
    if |s| >= |target| {
      assert c !in s[..|target|];
      WithoutAbsent(s[1..], target, c);
    }
  }

  lemma {:induction false} WithoutPrefix(device: string, tail: string, c: char)
    requires c in device && c !in tail
    ensures Without(device + tail, device) == tail
  {
    assert (device + tail)[..|device|] == device && (device + tail)[|device|..] == tail;
    WithoutAbsent(tail, device, c);
  }

  /** What follows a device: an optional 'p', digits and an optional newline. */
  predicate IsTail(tail: string) {
    tail != "" && forall c :: c in tail ==> IsDigit(c) || c == 'p' || c == '\n'
  }

  lemma {:induction false} TailParts(p: string, digits: string, end: string)
    requires p == [] || p == ['p']
    requires digits != "" && AllDigits(digits) && IsEnd(end)
    ensures IsTail(p + digits + end)
  {
  }

  lemma {:induction false} AfterPrefix(device: string, tail: string)
    requires tail != ""
    ensures device < device + tail && (device + tail)[|device|..] == tail
  {
  }

  lemma {:induction false} Regroup(device: string, p: string, digits: string, end: string)
    ensures device + p + digits + end == device + (p + digits + end)
    ensures p == [] ==> device + digits + end == device + (p + digits + end)
  {
  }

  /** The extracted device is a non-empty prefix. */
  lemma {:induction false} ExtractedPrefix(part: string)
    requires ExtractDevice(part).Some?
    ensures ExtractDevice(part).value != "" && ExtractDevice(part).value < part &&
      IsTail(part[|ExtractDevice(part).value|..])
  {
    var digits, end := ExtractedParts(part);
    var device := ExtractDevice(part).value;
    var p := if EndsInDigit(device) then ['p'] else [];
    TailParts(p, digits, end);
    Regroup(device, p, digits, end);
    AfterPrefix(device, p + digits + end);
  }

  /** An nvme device's name cannot occur again in what follows it, so a number is left over. */
  lemma {:induction false} NvmeNumber(part: string, device: string)
    requires ExtractDevice(part) == Some(device) && Contains(device, "nvme")
    ensures Without(part, device) == part[|device|..] != ""
  {
    ExtractedPrefix(part);
    var i: nat :| i <= |device| && OccursAt(device, "nvme", i);
    assert device[i] == device[i..i + 4][0] == 'n';
    assert part == device + part[|device|..];
    WithoutPrefix(device, part[|device|..], 'n');
  }

  function SplitDeviceAndPartitionNumber(part: string): Option<(string, string)> {
    match ExtractDevice(part)
    case None => None
    case Some(device) =>
      ExtractedPrefix(part);
      var number := Without(part, device);
      if Contains(device, "nvme") then
        NvmeNumber(part, device);
        Some((device, if number[0] == 'p' then number[1..] else number))
      else
        Some((device, number))
  }

  // ----- The pattern itself -----

  predicate IsEnd(end: string) {
    end == [] || end == ['\n']
  }

  /** `(.*\d)p` followed by digits and the end of the string, or a final newline. */
  ghost predicate FirstAlternative(part: string, device: string, digits: string, end: string) {
    && part == device + "p" + digits + end
    && EndsInDigit(device) && '\n' !in device && digits != "" && AllDigits(digits) && IsEnd(end)
  }

  /** `(.*\D)` followed by digits and the end of the string, or a final newline. */
  ghost predicate SecondAlternative(part: string, device: string, digits: string, end: string) {
    && part == device + digits + end
    && device != "" && !EndsInDigit(device) && OneLine(device) && digits != "" && AllDigits(digits) && IsEnd(end)
  }

  lemma {:induction false} StemOf(s: string, stem: string)
    requires stem <= s && !EndsInDigit(stem) && AllDigits(s[|stem|..])
    ensures Stem(s) == stem
  {
    if |stem| < |s| {
      assert s[|s| - 1] == s[|stem|..][|s| - |stem| - 1];
      var t := s[..|s| - 1];
      assert forall i :: 0 <= i < |t| - |stem| ==> t[|stem|..][i] == s[|stem|..][i];
      StemOf(t, stem);
    } else {
      assert s == stem;
    }
  }

  lemma {:induction false} StemOfParts(stem: string, digits: string, end: string)
    requires !EndsInDigit(stem) && digits != "" && AllDigits(digits) && IsEnd(end)
    ensures Chomp(stem + digits + end) == stem + digits && Stem(stem + digits) == stem
  {
    var body := stem + digits;
    assert body[|stem|..] == digits;
    assert IsDigit(body[|body| - 1]);
    StemOf(body, stem);
    if end == [] { assert body + end == body; } else { assert (body + end)[..|body|] == body; }
  }

  lemma {:induction false} FirstAlternativeExtracts(part: string, device: string, digits: string, end: string)
    requires FirstAlternative(part, device, digits, end)
    ensures ExtractDevice(part) == Some(device)
  {
    var stem := device + "p";
    assert part == stem + digits + end;
    StemOfParts(stem, digits, end);
    assert stem[..|stem| - 1] == device;
  }

  lemma {:induction false} SecondAlternativeExtracts(part: string, device: string, digits: string, end: string)
    requires SecondAlternative(part, device, digits, end)
    ensures ExtractDevice(part) == Some(if EndsInDigitP(device) then device[..|device| - 1] else device)
  {
    StemOfParts(device, digits, end);
  }

  /** The function is the pattern's match: the first alternative where it matches, otherwise
      the second, and no match otherwise. */
  lemma {:induction false} ExtractDeviceIsTheMatch(part: string, device: string)
    ensures ExtractDevice(part) == Some(device) <==>
      FirstMatches(part, device) || (SecondMatches(part, device) && !exists d :: FirstMatches(part, d))
  {
    forall d | FirstMatches(part, d) ensures ExtractDevice(part) == Some(d) && EndsInDigit(d) {
      var digits, end :| FirstAlternative(part, d, digits, end);
      FirstAlternativeExtracts(part, d, digits, end);
    }
    if digits, end :| SecondAlternative(part, device, digits, end) {
      SecondAlternativeExtracts(part, device, digits, end);
      if EndsInDigitP(device) {
        SecondIsFirst(part, device, digits, end);
        assert FirstMatches(part, device[..|device| - 1]);
      }
    }
    if ExtractDevice(part) == Some(device) {
      var digits, end := ExtractedParts(part);
    }
  }

  ghost predicate FirstMatches(part: string, device: string) {
    exists digits, end :: FirstAlternative(part, device, digits, end)
  }

  ghost predicate SecondMatches(part: string, device: string) {
    exists digits, end :: SecondAlternative(part, device, digits, end)
  }

  /** Where the second alternative's device ends in a digit and 'p', the first one matches too. */
  lemma {:induction false} SecondIsFirst(part: string, device: string, digits: string, end: string)
    requires SecondAlternative(part, device, digits, end) && EndsInDigitP(device)
    ensures FirstAlternative(part, device[..|device| - 1], digits, end)
  {
    assert device == device[..|device| - 1] + "p";
  }

  lemma {:induction false} ExtractedParts(part: string) returns (digits: string, end: string)
    requires ExtractDevice(part).Some?
    ensures var device := ExtractDevice(part).value;
            if EndsInDigit(device) then FirstAlternative(part, device, digits, end)
            else SecondAlternative(part, device, digits, end) && !EndsInDigitP(device)
  {
    var body := Chomp(part);
    var stem := Stem(body);
    digits, end := body[|stem|..], part[|body|..];
    assert part == body + end && body == stem + digits;
    if body == part { assert end == ""; } else { assert end == [part[|body|]] == "\n"; }
    assert digits != "";
    var device := ExtractDevice(part).value;
    if EndsInDigitP(stem) {
      assert stem[..|stem| - 1] == device && stem == device + "p";
      assert part == device + "p" + digits + end;
    } else {
      assert part == device + digits + end;
    }
  }

  // ----- Round trips -----

  lemma {:induction false} DecimalDigits(n: nat)
    ensures Decimal(n) != "" && AllDigits(Decimal(n))
  {
    if n >= 10 { DecimalDigits(n / 10); }
  }

  lemma {:induction false} DecimalInjective(m: nat, n: nat)
    requires Decimal(m) == Decimal(n)
    ensures m == n
  {
    if m >= 10 { DecimalDigits(m / 10); }
    if n >= 10 { DecimalDigits(n / 10); }
    var s, t := Decimal(m), Decimal(n);
    assert s[|s| - 1] == Digit(m % 10) && t[|t| - 1] == Digit(n % 10);
    if m >= 10 && n >= 10 {
      assert s[..|s| - 1] == Decimal(m / 10) && t[..|t| - 1] == Decimal(n / 10);
      DecimalInjective(m / 10, n / 10);
    }
  }

  lemma {:induction false} NoLeadingZero(n: nat)
    ensures Decimal(n) != "" && (n > 0 ==> Decimal(n)[0] != '0')
  {
    if n >= 10 { NoLeadingZero(n / 10); }
  }

  /** The number that digits denote. */
  function Value(s: string): nat
    requires AllDigits(s)
  {
    if s == "" then 0 else 10 * Value(s[..|s| - 1]) + (s[|s| - 1] as int - '0' as int)
  }

  lemma {:induction false} DecimalOfValue(s: string)
    requires s != "" && AllDigits(s) && s[0] != '0'
    ensures Value(s) > 0 && Decimal(Value(s)) == s
  {
    var before, last := s[..|s| - 1], s[|s| - 1];
    assert s == before + [last];
    assert Digit(last as int - '0' as int) == last;
    if |s| == 1 {
      assert Value(before) == 0;
    } else {
      DecimalOfValue(before);
      DecimalSnoc(Value(before), last as int - '0' as int);
    }
  }

  lemma {:induction false} DecimalSnoc(n: nat, d: nat)
    requires n > 0 && d < 10
    ensures Decimal(10 * n + d) == Decimal(n) + [Digit(d)]
  {
    assert (10 * n + d) / 10 == n && (10 * n + d) % 10 == d;
  }

  /** The device names whose partition paths extract_device undoes: not the iSCSI form, not
      empty, no line break inside, and not ending in a digit followed by 'p'. */
  predicate Extractable(device: string) {
    !Contains(device, ISCSI_PREFIX) && device != "" && OneLine(device) && !EndsInDigitP(device)
  }

  lemma {:induction false} PathParts(device: string, index: nat)
    ensures ExtractDevice(PartitionIndexToPath(device, index)) ==
      if Contains(device, ISCSI_PREFIX) then
        if '\n' in device then None else Some(device + "-part")
      else if EndsInDigit(device) then
        if '\n' in device then None else Some(device)
      else if device == "" || !OneLine(device) then None
      else if EndsInDigitP(device) then Some(device[..|device| - 1])
      else Some(device)
  {
    DecimalDigits(index);
    var stem :=
      if Contains(device, ISCSI_PREFIX) then device + "-part" else if EndsInDigit(device) then device + "p" else device;
    assert PartitionIndexToPath(device, index) == stem + Decimal(index) + "";
    StemOfParts(stem, Decimal(index), "");
    if stem != device {
      assert '\n' in device <==> '\n' in stem[..|stem| - 1] by {
        assert forall i :: 0 <= i < |device| ==> stem[..|stem| - 1][i] == device[i];
      }
    }
    if EndsInDigit(device) && !Contains(device, ISCSI_PREFIX) { assert stem[..|stem| - 1] == device; }
  }

  /** Extracting the device from a printed partition path gives the device back exactly for
      the extractable names. */
  lemma {:induction false} ExtractUndoesPath(device: string, index: nat)
    ensures ExtractDevice(PartitionIndexToPath(device, index)) == Some(device) <==> Extractable(device)
  {
    PathParts(device, index);
    if EndsInDigit(device) { assert '\n' in device <==> '\n' in device[..|device| - 1]; }
  }

  lemma {:induction false} WithoutLength(s: string, target: string)
    requires target != ""
    ensures |Without(s, target)| <= |s|
    ensures Without(s, target) == s || |Without(s, target)| <= |s| - |target|
  {
    if |s| < |target| {
    } else if s[..|target|] == target {
      WithoutLength(s[|target|..], target);
    } else {
      WithoutLength(s[1..], target);
    }
  }

  lemma {:induction false} NumberKeepsP(device: string, digits: string)
    requires EndsInDigit(device) && digits != "" && AllDigits(digits)
    ensures Without("p" + digits, device) != digits
  {
    var s := "p" + digits;
    WithoutLength(s, device);
    if |device| == 1 {
      assert s[..1] == "p" && device[0] != 'p';
      assert Without(s, device)[0] == 'p';
      assert digits[0] != 'p';
    }
  }

  lemma {:induction false} SplitPlainPath(device: string, digits: string)
    requires ExtractDevice(device + digits) == Some(device) && !EndsInDigit(device) && digits != "" && AllDigits(digits)
    ensures SplitDeviceAndPartitionNumber(device + digits) == Some((device, digits))
  {
    ExtractedPrefix(device + digits);
    WithoutPrefix(device, digits, device[|device| - 1]);
    assert IsDigit(digits[0]);
  }

  lemma {:induction false} SplitNvmePath(device: string, digits: string)
    requires ExtractDevice(device + "p" + digits) == Some(device) && Contains(device, "nvme")
    ensures SplitDeviceAndPartitionNumber(device + "p" + digits) == Some((device, digits))
  {
    var path, number := device + "p" + digits, "p" + digits;
    NvmeNumber(path, device);
    assert path[|device|..] == number;
    assert Without(path, device) == number;
    assert number[0] == 'p' && number[1..] == digits;
  }

  /** For other devices that end in a digit the 'p' stays, or more than the 'p' goes. */
  lemma {:induction false} SplitOtherPath(device: string, digits: string)
    requires ExtractDevice(device + "p" + digits) == Some(device) && !Contains(device, "nvme")
    requires EndsInDigit(device) && digits != "" && AllDigits(digits)
    ensures SplitDeviceAndPartitionNumber(device + "p" + digits) != Some((device, digits))
  {
    var tail := "p" + digits;
    Regroup(device, "p", digits, []);
    AfterPrefix(device, tail);
    assert device + "p" + digits == device + tail;
    NumberKeepsP(device, digits);
  }

  /** Splitting a printed path gives device and decimal index back exactly when, in addition,
      the device does not end in a digit or is an nvme name. */
  lemma {:induction false} SplitUndoesPath(device: string, index: nat)
    ensures SplitDeviceAndPartitionNumber(PartitionIndexToPath(device, index)) == Some((device, Decimal(index))) <==>
      Extractable(device) && (!EndsInDigit(device) || Contains(device, "nvme"))
  {
    ExtractUndoesPath(device, index);
    DecimalDigits(index);
    if Extractable(device) {
      if !EndsInDigit(device) { SplitPlainPath(device, Decimal(index)); }
      else if Contains(device, "nvme") { SplitNvmePath(device, Decimal(index)); }
      else { SplitOtherPath(device, Decimal(index)); }
    }
  }

  const MMC := "/dev/mmcblk0"

  lemma {:induction false} ContainsAll(s: string, sub: string, k: nat)
    requires k < |sub|
    ensures Contains(s, sub) ==> sub[k] in s
  {
    if i: nat :| i <= |s| && OccursAt(s, sub, i) { assert s[i..i + |sub|][k] == s[i + k]; }
  }

  lemma {:induction false} MmcHasNoOtherName()
    ensures !Contains(MMC, ISCSI_PREFIX) && !Contains(MMC, "nvme") && EndsInDigit(MMC)
  {
    ContainsAll(MMC, ISCSI_PREFIX, 1);
    ContainsAll(MMC, "nvme", 0);
  }

  lemma {:induction false} MmcPath()
    ensures PartitionIndexToPath(MMC, 1) == MMC + "p1" && ExtractDevice(MMC + "p1") == Some(MMC)
  {
    MmcHasNoOtherName();
    PathParts(MMC, 1);
    assert Decimal(1) == ['1'] && MMC + "p" + ['1'] == MMC + "p1";
    assert '\n' !in MMC;
  }

  /** A device whose partition is not taken apart: from the path of the first partition of an MMC device come
      the device and "p1". */
  lemma {:induction false} MmcIsNotSplit()
    ensures SplitDeviceAndPartitionNumber(PartitionIndexToPath(MMC, 1)) == Some((MMC, "p1"))
  {
    MmcPath();
    MmcHasNoOtherName();
    assert '/' == MMC[0];
    WithoutPrefix(MMC, "p1", '/');
  }

  /** A device that is not extracted from its partition. */
  lemma {:induction false} IscsiIsNotExtracted()
    ensures var device := "/dev/disk/by-path/" + ISCSI_PREFIX + "lun";
            PartitionIndexToPath(device, 1) == device + "-part1" &&
              ExtractDevice(PartitionIndexToPath(device, 1)) != Some(device)
  {
    ContainsMiddle("/dev/disk/by-path/", ISCSI_PREFIX, "lun");
    var device := "/dev/disk/by-path/" + ISCSI_PREFIX + "lun";
    assert Decimal(1) == ['1'] && device + "-part1" == device + "-part" + ['1'];
    ExtractUndoesPath("/dev/disk/by-path/" + ISCSI_PREFIX + "lun", 1);
  }

  lemma {:induction false} ContainsMiddle(head: string, sub: string, tail: string)
    ensures Contains(head + sub + tail, sub)
  {
    var s := head + sub + tail;
    assert s[|head|..|head| + |sub|] == sub;
    assert OccursAt(s, sub, |head|);
  }

  /** Different indices of one device have different paths. */
  lemma {:induction false} PathInjective(device: string, i: nat, j: nat)
    requires PartitionIndexToPath(device, i) == PartitionIndexToPath(device, j)
    ensures i == j
  {
    var stem :=
      if Contains(device, ISCSI_PREFIX) then device + "-part" else if EndsInDigit(device) then device + "p" else device;
    assert PartitionIndexToPath(device, i)[|stem|..] == Decimal(i);
    assert PartitionIndexToPath(device, j)[|stem|..] == Decimal(j);
    DecimalInjective(i, j);
  }

  /** A split path can be put together again: two partitions of devices below a directory
      with the same device and number are the same partition. */
  lemma {:induction false} SplitInjective(a: string, b: string)
    requires SplitDeviceAndPartitionNumber(a).Some? &&
      SplitDeviceAndPartitionNumber(a) == SplitDeviceAndPartitionNumber(b)
    requires '/' in SplitDeviceAndPartitionNumber(a).value.0
    requires Chomp(a) == a && Chomp(b) == b
    ensures a == b
  {
    var device := SplitDeviceAndPartitionNumber(a).value.0;
    SplitTail(a);
    SplitTail(b);
    assert a == device + a[|device|..] && b == device + b[|device|..];
    assert a[|device|..] == b[|device|..];
  }

  lemma {:induction false} SplitTail(part: string)
    requires SplitDeviceAndPartitionNumber(part).Some? && '/' in SplitDeviceAndPartitionNumber(part).value.0 &&
      Chomp(part) == part
    ensures var (device, number) := SplitDeviceAndPartitionNumber(part).value;
            && device < part
            && part[|device|..] == if EndsInDigit(device) && Contains(device, "nvme") then "p" + number else number
  {
    var (device, number) := SplitDeviceAndPartitionNumber(part).value;
    var digits, end := ExtractedParts(part);
    var p := if EndsInDigit(device) then ['p'] else [];
    var tail := p + digits + end;
    Regroup(device, p, digits, end);
    AfterPrefix(device, tail);
    assert tail[|tail| - 1] == part[|part| - 1];
    assert end == [] && tail == p + digits;
    WithoutPrefix(device, tail, '/');
    TailNumber(p, digits);
  }

  lemma {:induction false} TailNumber(p: string, digits: string)
    requires p == [] || p == ['p']
    requires digits != "" && AllDigits(digits)
    ensures if p == [] then (p + digits)[0] != 'p' else (p + digits)[0] == 'p' && "p" + (p + digits)[1..] == p + digits
  {
    if p != [] { assert (p + digits)[1..] == digits; }
  }
}
