/** Parsing LLDP packets: a list of TLVs, each a header of a 7-bit type and a 9-bit length
    (section 8.4 of IEEE 802.1AB-2016) followed by the value. */
module Lldp {

  type byte = n: nat | n < 256

  datatype Tlv = Tlv(tlvType: nat, value: seq<byte>)

  function Word(high: nat, low: nat): nat { 256 * high + low }

  /** The first two bytes as a big-endian word. */
  function Header(buff: seq<byte>): (h: nat)
    requires |buff| >= 2
    ensures h < 0x1_0000
  {
    Word(buff[0], buff[1])
  }

  /** A type and a nine-bit length that make up a header. */
  predicate AreFields(header: nat, f: (nat, nat)) {
    f.1 < 512 && header == 512 * f.0 + f.1
  }

  ghost function Fields(header: nat): (f: (nat, nat))
    ensures AreFields(header, f)
  {
    assert AreFields(header, (header / 512, header % 512));
    var f: (nat, nat) :| AreFields(header, f);
    f
  }

  ghost function TlvType(header: nat): nat { Fields(header).0 }
  ghost function TlvLen(header: nat): nat { Fields(header).1 }

  /** The parser computes them by division. */
  method SplitHeader(header: nat) returns (tlvType: nat, tlvLen: nat)
    ensures tlvType == TlvType(header) && tlvLen == TlvLen(header)
  {
    tlvType, tlvLen := header / 512, header % 512;
    assert AreFields(header, (tlvType, tlvLen)) && AreFields(header, Fields(header));
  }

  /** On 16-bit words the masks and the shift of the parser are division and remainder. */
  lemma {:induction false} MasksDivide(header: bv16)
    ensures (header & 0xfe00) >> 9 == header / 512 && header & 0x01ff == header % 512
  {
  }

  /** The slice buff[from:to] of a language that truncates slices at the end. */
  function Slice(buff: seq<byte>, from: nat, to: nat): seq<byte>
    requires from <= to
  {
    if |buff| <= from then [] else if |buff| <= to then buff[from..] else buff[from..to]
  }

  function Drop(buff: seq<byte>, from: nat): seq<byte> {
    if |buff| <= from then [] else buff[from..]
  }

  ghost function FirstTlv(buff: seq<byte>): Tlv
    requires |buff| >= 2
  {
    Tlv(TlvType(Header(buff)), Slice(buff, 2, TlvLen(Header(buff)) + 2))
  }

  ghost function Parse(buff: seq<byte>): seq<Tlv>
    decreases |buff|
  {
    if |buff| < 2 then [] else [FirstTlv(buff)] + Parse(Drop(buff, TlvLen(Header(buff)) + 2))
  }

  method ParseTlv(packet: seq<byte>) returns (lldpInfo: seq<Tlv>)
    ensures lldpInfo == Parse(packet)
  {
    var buff := packet;
    lldpInfo := [];
    ghost var all := Parse(packet);
    while |buff| >= 2
      invariant lldpInfo + Parse(buff) == all
    {
      ghost var before, parsed := buff, lldpInfo;
      var header := Header(buff);
      var tlvType, tlvLen := SplitHeader(header);
      var tlvData := Slice(buff, 2, tlvLen + 2);
      buff := Drop(buff, tlvLen + 2);
      lldpInfo := lldpInfo + [Tlv(tlvType, tlvData)];
      ParseUnfolds(before);
      Associative(parsed, [FirstTlv(before)], Parse(buff));
    }
  }

  // ----- Encoding -----

  predicate Encodable(t: Tlv) {
    t.tlvType < 128 && |t.value| < 512
  }

  function EncodeOne(t: Tlv): seq<byte>
    requires Encodable(t)
  {
    var n := |t.value|;
    (if n < 256 then [2 * t.tlvType, n] else [2 * t.tlvType + 1, n - 256]) + t.value
  }

  function Encode(ts: seq<Tlv>): seq<byte>
    requires forall i :: 0 <= i < |ts| ==> Encodable(ts[i])
  {
    if ts == [] then [] else EncodeOne(ts[0]) + Encode(ts[1..])
  }

  lemma {:induction false} ParseOne(t: Tlv, rest: seq<byte>)
    requires Encodable(t)
    ensures Parse(EncodeOne(t) + rest) == [t] + Parse(rest)
  {
    var buff := EncodeOne(t) + rest;
    assert Header(buff) == 512 * t.tlvType + |t.value|;
    assert TlvLen(Header(buff)) == |t.value| && TlvType(Header(buff)) == t.tlvType;
    assert Slice(buff, 2, |t.value| + 2) == t.value;
    assert Drop(buff, |t.value| + 2) == rest;
  }

  lemma {:induction false} Associative<T>(a: seq<T>, b: seq<T>, c: seq<T>)
    ensures (a + b) + c == a + (b + c)
  {
  }

  /** Parsing inverts encoding, whatever follows. */
  lemma {:induction false} ParseInvertsEncode(ts: seq<Tlv>, rest: seq<byte>)
    requires forall i :: 0 <= i < |ts| ==> Encodable(ts[i])
    ensures Parse(Encode(ts) + rest) == ts + Parse(rest)
  {
    if ts == [] {
      assert Encode(ts) + rest == rest;
    } else {
      var head, tail := EncodeOne(ts[0]), Encode(ts[1..]);
      Associative(head, tail, rest);
      ParseOne(ts[0], tail + rest);
      ParseInvertsEncode(ts[1..], rest);
      Associative([ts[0]], ts[1..], Parse(rest));
      assert [ts[0]] + ts[1..] == ts;
    }
  }

  // ----- Every byte is accounted for -----

  /** Some header declares more bytes than are left. */
  ghost predicate Truncated(buff: seq<byte>)
    decreases |buff|
  {
    |buff| >= 2 && (|buff| < TlvLen(Header(buff)) + 2 || Truncated(Drop(buff, TlvLen(Header(buff)) + 2)))
  }

  /** The bytes that the parser warns about: what is left when fewer than two bytes are. */
  ghost function Trailing(buff: seq<byte>): (rest: seq<byte>)
    ensures |rest| <= 1
    decreases |buff|
  {
    if |buff| < 2 then buff else Trailing(Drop(buff, TlvLen(Header(buff)) + 2))
  }

  /** Where the k-th TLV starts. */
  function At(ts: seq<Tlv>, k: nat): nat
    requires k <= |ts|
  {
    if k == 0 then 0 else 2 + |ts[0].value| + At(ts[1..], k - 1)
  }

  function Size(ts: seq<Tlv>): nat {
    At(ts, |ts|)
  }

  /** The headers, the values and the trailing byte account for every byte of any buffer. */
  lemma {:induction false} EveryByteCounts(buff: seq<byte>)
    ensures |buff| == Size(Parse(buff)) + |Trailing(buff)|
    decreases |buff|
  {
    if |buff| >= 2 {
      var rest := Drop(buff, TlvLen(Header(buff)) + 2);
      EveryByteCounts(rest);
      assert Parse(buff)[1..] == Parse(rest) && Parse(buff)[0] == FirstTlv(buff);
    }
  }

  predicate SliceAt(buff: seq<byte>, ts: seq<Tlv>, k: nat)
    requires k < |ts|
  {
    IsSlice(buff, At(ts, k), ts[k], k < |ts| - 1)
  }

  /** Every value of a list starts after the headers and values before it. */
  ghost predicate AllSlices(buff: seq<byte>, ts: seq<Tlv>) {
    forall k :: 0 <= k < |ts| ==> SliceAt(buff, ts, k)
  }

  /** The k-th value starts after the headers and values before it, has the declared type, and
      has the declared length unless it is the last one. */
  lemma {:induction false} ValuesAreSlices(buff: seq<byte>)
    ensures AllSlices(buff, Parse(buff))
    decreases |buff|
  {
    if |buff| >= 2 {
      var n := TlvLen(Header(buff)) + 2;
      ValuesAreSlices(Drop(buff, n));
      ParseUnfolds(buff);
      FirstIsSlice(buff);
      OneMoreSlice(buff, n, FirstTlv(buff), Drop(buff, n), Parse(Drop(buff, n)));
    }
  }

  lemma {:induction false} OneMoreSlice(buff: seq<byte>, n: nat, first: Tlv, rest: seq<byte>, tail: seq<Tlv>)
    requires AllSlices(rest, tail) && IsSlice(buff, 0, first, tail != [])
    requires tail != [] ==> n <= |buff| && rest == buff[n..] && n == |first.value| + 2
    ensures AllSlices(buff, [first] + tail)
  {
    var ts := [first] + tail;
    forall k | 0 <= k < |ts| ensures SliceAt(buff, ts, k) {
      if k > 0 { LaterSlice(buff, n, first, rest, tail, k); }
    }
  }

  lemma {:induction false} LaterSlice(buff: seq<byte>, n: nat, first: Tlv, rest: seq<byte>, tail: seq<Tlv>, k: nat)
    requires 0 < k <= |tail| && SliceAt(rest, tail, k - 1)
    requires n <= |buff| && rest == buff[n..] && n == |first.value| + 2
    ensures SliceAt(buff, [first] + tail, k)
  {
    AtCons(first, tail, k);
    SliceOfRest(buff, rest, n, At(tail, k - 1), tail[k - 1], k < |tail|);
  }

  lemma {:induction false} AtCons(t: Tlv, ts: seq<Tlv>, k: nat)
    requires 0 < k <= |ts| + 1
    ensures At([t] + ts, k) == 2 + |t.value| + At(ts, k - 1)
  {
    assert ([t] + ts)[1..] == ts;
  }

  lemma {:induction false} ParseUnfolds(buff: seq<byte>)
    requires |buff| >= 2
    ensures var rest := Drop(buff, TlvLen(Header(buff)) + 2);
            Parse(buff) == [FirstTlv(buff)] + Parse(rest) &&
            (|rest| >= 2 ==> TlvLen(Header(buff)) + 2 <= |buff| && |FirstTlv(buff).value| == TlvLen(Header(buff)))
  {
  }

  predicate IsSlice(buff: seq<byte>, at: nat, t: Tlv, whole: bool) {
    && at + 2 + |t.value| <= |buff|
    && t.value == buff[at + 2..at + 2 + |t.value|]
    && var declared := Word(buff[at], buff[at + 1]) - 512 * t.tlvType;
    && 0 <= declared < 512
    && (if whole then |t.value| == declared else |t.value| <= declared)
  }

  lemma {:induction false} FirstIsSlice(buff: seq<byte>)
    requires |buff| >= 2
    ensures IsSlice(buff, 0, FirstTlv(buff), |Parse(buff)| > 1)
  {
    var n := TlvLen(Header(buff));
    assert |Parse(buff)| == 1 + |Parse(Drop(buff, n + 2))|;
    assert |Parse(buff)| > 1 ==> |Drop(buff, n + 2)| >= 2;
  }

  lemma {:induction false} SliceOfRest(buff: seq<byte>, rest: seq<byte>, n: nat, at: nat, t: Tlv, whole: bool)
    requires n <= |buff| && rest == buff[n..] && IsSlice(rest, at, t, whole)
    ensures IsSlice(buff, n + at, t, whole)
  {
    assert rest[at + 2..at + 2 + |t.value|] == buff[n + at + 2..n + at + 2 + |t.value|];
  }

  lemma {:induction false} ReencodeOne(buff: seq<byte>)
    requires |buff| >= 2
    ensures Encodable(FirstTlv(buff))
    ensures |buff| >= TlvLen(Header(buff)) + 2 ==> EncodeOne(FirstTlv(buff)) == buff[..TlvLen(Header(buff)) + 2]
    ensures |buff| < TlvLen(Header(buff)) + 2 ==>
      EncodeOne(FirstTlv(buff)) != buff && |EncodeOne(FirstTlv(buff))| == |buff|
  {
    var t, n := FirstTlv(buff), TlvLen(Header(buff));
    var bytes := EncodeOne(t);
    assert Header(buff) == 512 * t.tlvType + n;
    assert Word(bytes[0], bytes[1]) == 512 * t.tlvType + |t.value|;
    assert t.value == bytes[2..];
    if |buff| >= n + 2 {
      assert |t.value| == n && bytes[0] == buff[0] && bytes[1] == buff[1];
      assert buff[..n + 2] == [buff[0], buff[1]] + buff[2..n + 2];
    }
  }

  lemma {:induction false} ParsedEncodable(buff: seq<byte>)
    ensures forall i :: 0 <= i < |Parse(buff)| ==> Encodable(Parse(buff)[i])
    decreases |buff|
  {
    if |buff| >= 2 {
      ReencodeOne(buff);
      ParsedEncodable(Drop(buff, TlvLen(Header(buff)) + 2));
    }
  }

  lemma {:induction false} SameFront(buff: seq<byte>, n: nat, first: seq<byte>, tail: seq<byte>)
    requires n <= |buff| && first == buff[..n]
    ensures first + tail == buff <==> tail == buff[n..]
  {
    assert (first + tail)[n..] == tail;
    assert first + buff[n..] == buff;
  }

  /** Encoding the parsed list gives the buffer back, up to the trailing byte, exactly when no
      header declares more than is there. */
  lemma {:induction false} EncodeInvertsParse(buff: seq<byte>)
    requires forall i :: 0 <= i < |Parse(buff)| ==> Encodable(Parse(buff)[i])
    ensures Encode(Parse(buff)) + Trailing(buff) == buff <==> !Truncated(buff)
    decreases |buff|
  {
    if |buff| >= 2 {
      var n := TlvLen(Header(buff)) + 2;
      var rest := Drop(buff, n);
      var first := EncodeOne(FirstTlv(buff));
      assert Parse(buff)[1..] == Parse(rest);
      ReencodeOne(buff);
      EncodeInvertsParse(rest);
      var tail := Encode(Parse(rest)) + Trailing(rest);
      assert Encode(Parse(buff)) + Trailing(buff) == first + tail;
      if |buff| >= n { SameFront(buff, n, first, tail); } else { assert tail == [] && first + tail == first; }
    }
  }

  /** A truncated packet: its header declares seven bytes, one is left, and encoding declares one. */
  lemma {:induction false} TruncatedPacket()
    ensures var buff: seq<byte> := [0x02, 0x07, 0x41];
            && Parse(buff) == [Tlv(1, [0x41])]
            && Encode(Parse(buff)) + Trailing(buff) == [0x02, 0x01, 0x41]
  {
    var buff: seq<byte> := [0x02, 0x07, 0x41];
    assert Header(buff) == 519 && FirstTlv(buff) == Tlv(1, [0x41]);
    assert Drop(buff, 9) == [];
    assert Parse(buff) == [Tlv(1, [0x41])] + Parse([]);
    assert EncodeOne(Tlv(1, [0x41])) == [0x02, 0x01, 0x41];
    assert [Tlv(1, [0x41])][1..] == [];
    assert Encode([Tlv(1, [0x41])]) == EncodeOne(Tlv(1, [0x41])) + Encode([]);
  }
}
