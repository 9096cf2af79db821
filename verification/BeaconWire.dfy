/** The wire form of a request's beacons: the encoders of libel/protocol/proto.c, and the reader a server needs. */
module BeaconWire {
  import opened Prelude
  import opened Macs
  import opened Beacons
  import opened ProtocolBuffers

  // ----- access points -----

  /** What the encoder takes from one access point. */
  datatype ApFields = ApFields(mac: Mac, freq: Uint32, rssi: Int16, age: Uint32, connected: bool)

  const APS_CONNECTED: nat := 1
  const APS_COMMON_FREQ: nat := 2
  const APS_COMMON_AGE: nat := 3
  const APS_MAC: nat := 4
  const APS_FREQUENCY: nat := 5
  const APS_NEG_RSSI: nat := 6
  const APS_AGE: nat := 7

  function Columns(aps: seq<ApFields>, column: ApFields -> int): (c: seq<int>)
    ensures |c| == |aps| && forall i | 0 <= i < |aps| :: c[i] == column(aps[i])
  {
    seq(|aps|, i requires 0 <= i < |aps| => column(aps[i]))
  }

  function MacColumn(a: ApFields): int { MacNumber(a.mac) }
  function FreqColumn(a: ApFields): int { a.freq }
  function NegRssiColumn(a: ApFields): int { 0 - a.rssi as int }
  function RssiColumn(a: ApFields): int { a.rssi }
  function AgeColumn(a: ApFields): int { a.age }

  function Unsigned(vs: seq<int>): (u: seq<nat>)
    ensures |u| == |vs| && forall i | 0 <= i < |vs| :: u[i] == ToUnsigned(vs[i])
  {
    seq(|vs|, i requires 0 <= i < |vs| => ToUnsigned(vs[i]))
  }

  predicate AllSame(vs: seq<int>) {
    forall i | 0 <= i < |vs| :: vs[i] == vs[0]
  }

  /** One common value plus one if all agree and there are several, the packed values otherwise. */
  function Optimized(vs: seq<int>, commonTag: nat, tag: nat): Field
    requires |vs| > 0
  {
    if |vs| > 1 && AllSame(vs) then Number(commonTag, ToUnsigned(vs[0] + 1)) else Text(tag, Packed(Unsigned(vs)))
  }

  /** The index of the first connected access point, |aps| if none is. */
  function FirstConnected(aps: seq<ApFields>): (i: nat)
    ensures i <= |aps|
    ensures i < |aps| ==> aps[i].connected
    ensures forall k | 0 <= k < i :: !aps[k].connected
  {
    if aps == [] || aps[0].connected then 0 else 1 + FirstConnected(aps[1..])
  }

  function MacField(aps: seq<ApFields>): Field {
    Text(APS_MAC, Packed(Unsigned(Columns(aps, MacColumn))))
  }

  function FreqField(aps: seq<ApFields>): Field
    requires |aps| > 0
  {
    Optimized(Columns(aps, FreqColumn), APS_COMMON_FREQ, APS_FREQUENCY)
  }

  function RssiField(aps: seq<ApFields>): Field {
    Text(APS_NEG_RSSI, Packed(Unsigned(Columns(aps, NegRssiColumn))))
  }

  function AgeField(aps: seq<ApFields>): Field
    requires |aps| > 0
  {
    Optimized(Columns(aps, AgeColumn), APS_COMMON_AGE, APS_AGE)
  }

  /** The fields of the Aps submessage. */
  function ApsFields(aps: seq<ApFields>): seq<Field>
    requires |aps| > 0
  {
    ConnectedFields(aps) + [MacField(aps)] + [FreqField(aps)] + [RssiField(aps)] + [AgeField(aps)]
  }

  /** encode_repeated_int_field: a dry run gives the length, then the values are written for real. */
  method EncodeRepeatedIntField(ostream: OStream, tag: nat, vs: seq<int>)
    requires ostream.Valid() && tag < 0x1_0000 && |Packed(Unsigned(vs))| < 0x1_0000_0000_0000_0000
    modifies ostream
    ensures ostream.Valid()
    ensures ostream.content == old(ostream.content) + FieldBytes(Text(tag, Packed(Unsigned(vs))))
  {
    ghost var data := Packed(Unsigned(vs));
    TextAssembled(ostream.content, tag, data);
    UnsignedSmall(|data|);
    var substream := new OStream(true);
    ostream.PutTag(WT_STRING, tag);
    PutAll(substream, vs);
    assert substream.content == data;
    ostream.PutVarint(substream.bytesWritten);
    PutAll(ostream, vs);
  }

  /** The loop both passes share. */
  method PutAll(stream: OStream, vs: seq<int>)
    requires stream.Valid()
    modifies stream
    ensures stream.Valid() && stream.content == old(stream.content) + Packed(Unsigned(vs))
  {
    for i := 0 to |vs|
      invariant stream.Valid() && stream.content == old(stream.content) + Packed(Unsigned(vs[..i]))
    {
      PackedExtended(old(stream.content), vs, i);
      stream.PutVarint(vs[i]);
    }
    assert vs[..|vs|] == vs;
  }

  lemma {:induction false} PackedExtended(start: Bytes, vs: seq<int>, i: nat)
    requires i < |vs|
    ensures start + Packed(Unsigned(vs[..i])) + Varint(ToUnsigned(vs[i])) == start + Packed(Unsigned(vs[..i + 1]))
  {
    var one := [ToUnsigned(vs[i])];
    assert Unsigned(vs[..i + 1]) == Unsigned(vs[..i]) + one;
    PackedAppend(Unsigned(vs[..i]), one);
    assert one[1..] == [];
    assert Packed(one) == Varint(one[0]) + Packed(one[1..]);
    assert Packed(one) == Varint(one[0]);
  }

  /** encode_optimized_repeated_field. */
  method EncodeOptimizedRepeatedField(ostream: OStream, commonTag: nat, tag: nat, vs: seq<int>)
    requires ostream.Valid() && tag < 0x1_0000 && commonTag < 0x1_0000 && |vs| > 0
    requires |Packed(Unsigned(vs))| < 0x1_0000_0000_0000_0000
    modifies ostream
    ensures ostream.Valid()
    ensures ostream.content == old(ostream.content) + FieldBytes(Optimized(vs, commonTag, tag))
  {
    var value, allSame, i := vs[0], true, 1;
    while allSame && i < |vs|
      invariant 1 <= i <= |vs|
      invariant allSame ==> forall k | 0 <= k < i :: vs[k] == value
      invariant !allSame ==> !AllSame(vs)
    {
      if vs[i] != value {
        allSame := false;
      }
      i := i + 1;
    }
    if |vs| > 1 && allSame {
      ostream.PutNumber(commonTag, value + 1);
    } else {
      EncodeRepeatedIntField(ostream, tag, vs);
    }
  }

  /** The connected field, if any access point is connected. */
  function ConnectedFields(aps: seq<ApFields>): seq<Field> {
    if FirstConnected(aps) < |aps| then [Number(APS_CONNECTED, ToUnsigned(FirstConnected(aps) + 1))] else []
  }

  /** encode_connected_ap_field: the index of the first connected access point plus one, if there is one. */
  method EncodeConnectedApField(ostream: OStream, aps: seq<ApFields>)
    requires ostream.Valid()
    modifies ostream
    ensures ostream.Valid()
    ensures ostream.content == old(ostream.content) + Message(ConnectedFields(aps))
  {
    MessageExtended(ostream.content, [], Number(APS_CONNECTED, ToUnsigned(FirstConnected(aps) + 1)));
    var i := 0;
    while i < |aps|
      invariant 0 <= i <= FirstConnected(aps)
    {
      if aps[i].connected {
        ostream.PutNumber(APS_CONNECTED, i + 1);
        break;
      }
      i := i + 1;
    }
  }

  /** mac_to_int. */
  method MacToInt(mac: Mac) returns (r: int)
    ensures r == MacNumber(mac)
  {
    r := 0;
    for i := 0 to 6
      invariant i == 0 ==> r == 0
      invariant i == 1 ==> r == mac[0]
      invariant i == 2 ==> r == mac[0] as int * 0x100 + mac[1]
      invariant i == 3 ==> r == mac[0] as int * 0x1_0000 + mac[1] as int * 0x100 + mac[2]
      invariant i == 4 ==> r == mac[0] as int * 0x100_0000 + mac[1] as int * 0x1_0000 + mac[2] as int * 0x100 + mac[3]
      invariant i == 5 ==> r == mac[0] as int * 0x1_0000_0000 + mac[1] as int * 0x100_0000 + mac[2] as int * 0x1_0000
                                + mac[3] as int * 0x100 + mac[4]
      invariant i == 6 ==> r == MacNumber(mac)
    {
      r := r * 256 + mac[i];
    }
  }

  /** Lists short enough that every length fits the wire's 64 bits: the library never holds more. */
  predicate Short(aps: seq<ApFields>) {
    0 < |aps| <= MAX_AP_BEACONS
  }

  lemma {:induction false} VarintLength(v: nat, n: nat)
    requires v < Power128(n) && n > 0
    ensures |Varint(v)| <= n
    decreases n
  {
    if v >= 128 {
      VarintLength(v / 128, n - 1);
    }
  }

  function Power128(n: nat): (p: nat)
    ensures p > 0
  {
    if n == 0 then 1 else 128 * Power128(n - 1)
  }

  lemma {:induction false} WordLength(v: int)
    ensures |Varint(ToUnsigned(v))| <= 10
  {
    assert Power128(2) == 0x4000;
    assert Power128(4) == 0x1000_0000;
    assert Power128(6) == 0x400_0000_0000;
    assert Power128(8) == 0x100_0000_0000_0000;
    assert Power128(10) == 0x40_0000_0000_0000_0000;
    VarintLength(ToUnsigned(v), 10);
  }

  lemma {:induction false} PackedLength(vs: seq<int>)
    ensures |Packed(Unsigned(vs))| <= 10 * |vs|
  {
    if vs != [] {
      WordLength(vs[0]);
      assert Unsigned(vs)[1..] == Unsigned(vs[1..]);
      PackedLength(vs[1..]);
    }
  }

  lemma {:induction false} FieldLength(f: Field)
    requires f.tag < 16
    requires f.Number? ==> f.value < 0x1_0000_0000_0000_0000
    requires f.Text? ==> |f.data| < 0x1_0000_0000_0000_0000
    ensures |FieldBytes(f)| <= 11 + if f.Text? then |f.data| else 0
  {
    match f
    case Number(tag, value) => WordLengthOf(value);
    case Text(tag, data) => WordLengthOf(|data|);
  }

  lemma {:induction false} WordLengthOf(v: nat)
    requires v < 0x1_0000_0000_0000_0000
    ensures |Varint(v)| <= 10
  {
    UnsignedSmall(v);
    WordLength(v);
  }

  lemma {:induction false} ColumnFieldLength(f: Field, vs: seq<int>)
    requires f.tag < 16 && |vs| <= MAX_AP_BEACONS
    requires f.Number? ==> f.value < 0x1_0000_0000_0000_0000
    requires f.Text? ==> f.data == Packed(Unsigned(vs))
    ensures |FieldBytes(f)| <= 211
  {
    PackedLength(vs);
    FieldLength(f);
  }

  /** The access points of a request need less than a kilobyte. */
  lemma {:induction false} ApsLength(aps: seq<ApFields>)
    requires Short(aps)
    ensures |Message(ApsFields(aps))| <= 855
  {
    var e := ConnectedFields(aps);
    FieldsAssembled([], e, MacField(aps), FreqField(aps), RssiField(aps), AgeField(aps));
    ColumnFieldLength(MacField(aps), Columns(aps, MacColumn));
    ColumnFieldLength(FreqField(aps), Columns(aps, FreqColumn));
    ColumnFieldLength(RssiField(aps), Columns(aps, NegRssiColumn));
    ColumnFieldLength(AgeField(aps), Columns(aps, AgeColumn));
    ConnectedLength(aps);
  }

  lemma {:induction false} ConnectedLength(aps: seq<ApFields>)
    ensures |Message(ConnectedFields(aps))| <= 11
  {
    if ConnectedFields(aps) != [] {
      var f := ConnectedFields(aps)[0];
      OneField(f);
      FieldLength(f);
      assert ConnectedFields(aps) == [f];
    }
  }

  /** encode_ap_fields. */
  method EncodeApFields(ostream: OStream, aps: seq<ApFields>)
    requires ostream.Valid() && Short(aps)
    modifies ostream
    ensures ostream.Valid()
    ensures ostream.content == old(ostream.content) + Message(ApsFields(aps))
  {
    ghost var start := ostream.content;
    var macs, freqs, rssis, ages :=
      Columns(aps, MacColumn), Columns(aps, FreqColumn), Columns(aps, NegRssiColumn), Columns(aps, AgeColumn);
    PackedLength(macs);
    PackedLength(freqs);
    PackedLength(rssis);
    PackedLength(ages);
    EncodeConnectedApField(ostream, aps);
    EncodeRepeatedIntField(ostream, APS_MAC, macs);
    EncodeOptimizedRepeatedField(ostream, APS_COMMON_FREQ, APS_FREQUENCY, freqs);
    EncodeRepeatedIntField(ostream, APS_NEG_RSSI, rssis);
    EncodeOptimizedRepeatedField(ostream, APS_COMMON_AGE, APS_AGE, ages);
    FieldsAssembled(start, ConnectedFields(aps), MacField(aps), FreqField(aps), RssiField(aps), AgeField(aps));
  }

  lemma {:induction false} FieldsAssembled(start: Bytes, e: seq<Field>, a: Field, b: Field, c: Field, d: Field)
    ensures start + Message(e) + FieldBytes(a) + FieldBytes(b) + FieldBytes(c) + FieldBytes(d)
            == start + Message(e + [a] + [b] + [c] + [d])
  {
    MessageExtended(start, e, a);
    MessageExtended(start, e + [a], b);
    MessageExtended(start, e + [a] + [b], c);
    MessageExtended(start, e + [a] + [b] + [c], d);
  }

  // ----- reading access points back -----

  /** What a server learns about the access points. */
  datatype ApsView = ApsView(macs: seq<int>, freqs: seq<int>, rssis: seq<int>, ages: seq<int>, connected: Option<nat>)

  function ViewOf(aps: seq<ApFields>): ApsView {
    ApsView(Columns(aps, MacColumn), Columns(aps, FreqColumn), Columns(aps, RssiColumn),
            Columns(aps, AgeColumn), if FirstConnected(aps) < |aps| then Some(FirstConnected(aps)) else None)
  }

  function Repeat(v: int, n: nat): (r: seq<int>)
    ensures |r| == n && forall i | 0 <= i < n :: r[i] == v
  {
    seq(n, _ => v)
  }

  function TruncatedAll(t: IntType, u: seq<nat>): (vs: seq<int>)
    ensures |vs| == |u| && forall i | 0 <= i < |u| :: vs[i] == Truncated(t, u[i])
  {
    seq(|u|, i requires 0 <= i < |u| => Truncated(t, u[i]))
  }

  function Negated(vs: seq<int>): (r: seq<int>)
    ensures |r| == |vs| && forall i | 0 <= i < |vs| :: r[i] == -vs[i]
  {
    seq(|vs|, i requires 0 <= i < |vs| => -vs[i])
  }

  // The types of the fields are those of the schema, libel/protocol/el.pb.h.

  function ReadInts(s: Bytes, t: IntType): Option<seq<int>> {
    match ReadPacked(s)
    case None => None
    case Some(u) => Some(TruncatedAll(t, u))
  }

  /** A common value counts for all n entries; 0 stands for none. */
  function ReadOptimized(fs: seq<Field>, commonTag: nat, tag: nat, t: IntType, n: nat): Option<seq<int>> {
    var common := Truncated(UINT32, NumberOf(fs, commonTag));
    if common > 0 then Some(Repeat(common - 1, n)) else ReadInts(TextOf(fs, tag), t)
  }

  function ReadConnected(n: int): Option<nat> {
    if n > 0 then Some(n - 1) else None
  }

  function ReadAps(s: Bytes): Option<ApsView> {
    match ReadMessage(s)
    case None => None
    case Some(fs) =>
      match ReadInts(TextOf(fs, APS_MAC), INT64)
      case None => None
      case Some(macs) =>
        match (ReadOptimized(fs, APS_COMMON_FREQ, APS_FREQUENCY, INT32, |macs|),
               ReadInts(TextOf(fs, APS_NEG_RSSI), UINT32),
               ReadOptimized(fs, APS_COMMON_AGE, APS_AGE, UINT32, |macs|))
        case (Some(freqs), Some(rssis), Some(ages)) =>
          Some(ApsView(macs, freqs, Negated(rssis), ages,
                       ReadConnected(Truncated(UINT32, NumberOf(fs, APS_CONNECTED)))))
        case _ => None
  }

  predicate Int64s(vs: seq<int>) {
    forall i | 0 <= i < |vs| :: -0x8000_0000_0000_0000 <= vs[i] < 0x8000_0000_0000_0000
  }

  predicate AllFit(t: IntType, vs: seq<int>) {
    forall i | 0 <= i < |vs| :: Holds(t, vs[i])
  }

  /** Packed values read back exactly if the field's type holds each of them. */
  lemma {:induction false} IntsReadBackIff(t: IntType, vs: seq<int>)
    requires Int64s(vs)
    ensures ReadInts(Packed(Unsigned(vs)), t) == Some(vs) <==> AllFit(t, vs)
  {
    PackedRoundTrip(Unsigned(vs));
    var read := TruncatedAll(t, Unsigned(vs));
    forall i | 0 <= i < |vs| ensures read[i] == vs[i] <==> Holds(t, vs[i]) {
      TruncatedIff(t, vs[i]);
    }
    if AllFit(t, vs) {
      assert read == vs;
    }
  }

  /** The one common value that is lost is the largest: sent plus one it reads as none. */
  predicate OptimizedFits(t: IntType, vs: seq<int>)
    requires |vs| > 0
  {
    if |vs| > 1 && AllSame(vs) then vs[0] != 0xFFFF_FFFF else AllFit(t, vs)
  }

  /** An optimised field reads back exactly if the form it takes can hold the values. */
  lemma {:induction false} OptimizedRoundTrip(fs: seq<Field>, vs: seq<int>, commonTag: nat, tag: nat, t: IntType)
    requires |vs| > 0 && commonTag != tag
    requires forall i | 0 <= i < |vs| :: 0 <= vs[i] < 0x1_0000_0000
    requires var f := Optimized(vs, commonTag, tag);
             && NumberOf(fs, commonTag) == (if f.Number? then f.value else 0)
             && TextOf(fs, tag) == (if f.Text? then f.data else [])
    ensures ReadOptimized(fs, commonTag, tag, t, |vs|) == Some(vs) <==> OptimizedFits(t, vs)
  {
    if Optimized(vs, commonTag, tag).Number? {
      TruncatedRemainder(vs[0] + 1);
      if vs[0] == 0xFFFF_FFFF {
        assert ReadInts([], t) == Some(TruncatedAll(t, []));
      } else {
        assert Repeat(vs[0], |vs|) == vs;
      }
    } else {
      IntsReadBackIff(t, vs);
    }
  }

  /** The fields of an Aps submessage have tags of their own, so each lookup finds its field. */
  lemma {:induction false} ApsLookup(e: seq<Field>, a: Field, b: Field, c: Field, d: Field, tag: nat)
    requires forall i | 0 <= i < |e| :: e[i].Number? && e[i].tag == APS_CONNECTED
    requires a.tag == APS_MAC && c.tag == APS_NEG_RSSI
    requires b.tag == APS_COMMON_FREQ || b.tag == APS_FREQUENCY
    requires d.tag == APS_COMMON_AGE || d.tag == APS_AGE
    requires 2 <= tag <= 7
    ensures var fs := e + [a] + [b] + [c] + [d];
            var f := if tag == APS_MAC then a else if tag == APS_NEG_RSSI then c
                     else if tag == APS_COMMON_FREQ || tag == APS_FREQUENCY then b else d;
            && NumberOf(fs, tag) == (if f.Number? && f.tag == tag then f.value else 0)
            && TextOf(fs, tag) == (if f.Text? && f.tag == tag then f.data else [])
  {
    var fs := e + [a] + [b] + [c] + [d];
    if tag == APS_MAC {
      assert fs == e + [a] + [b, c, d];
      LookupMiddle(e, a, [b, c, d], tag);
    } else if tag == APS_NEG_RSSI {
      assert fs == (e + [a, b]) + [c] + [d];
      LookupMiddle(e + [a, b], c, [d], tag);
    } else if tag == APS_COMMON_FREQ || tag == APS_FREQUENCY {
      assert fs == (e + [a]) + [b] + [c, d];
      LookupMiddle(e + [a], b, [c, d], tag);
    } else {
      assert fs == (e + [a, b, c]) + [d] + [];
      LookupMiddle(e + [a, b, c], d, [], tag);
    }
  }

  lemma {:induction false} ConnectedLookup(aps: seq<ApFields>)
    requires Short(aps)
    ensures ReadConnected(Truncated(UINT32, NumberOf(ApsFields(aps), APS_CONNECTED))) == ViewOf(aps).connected
  {
    var n := FirstConnected(aps) + 1;
    UnsignedSmall(n);
    TruncatedIff(UINT32, n);
    HeadLookup(ConnectedFields(aps), MacField(aps), FreqField(aps), RssiField(aps), AgeField(aps));
  }

  lemma {:induction false} HeadLookup(e: seq<Field>, a: Field, b: Field, c: Field, d: Field)
    requires |e| <= 1 && forall i | 0 <= i < |e| :: e[i].Number? && e[i].tag == APS_CONNECTED
    requires a.tag > 1 && b.tag > 1 && c.tag > 1 && d.tag > 1
    ensures NumberOf(e + [a] + [b] + [c] + [d], APS_CONNECTED) == if |e| == 1 then e[0].value else 0
  {
    var rest := [a, b, c, d];
    assert e + [a] + [b] + [c] + [d] == e + rest;
    if |e| == 1 {
      assert e + rest == [] + [e[0]] + rest;
      LookupMiddle([], e[0], rest, APS_CONNECTED);
    } else {
      assert e + rest == rest;
      LacksReadsEmpty(rest, APS_CONNECTED);
    }
  }

  lemma {:induction false} MacsArrive(aps: seq<ApFields>)
    requires Short(aps)
    ensures ReadInts(TextOf(ApsFields(aps), APS_MAC), INT64) == Some(Columns(aps, MacColumn))
  {
    ApsLookup(ConnectedFields(aps), MacField(aps), FreqField(aps), RssiField(aps), AgeField(aps), APS_MAC);
    IntsReadBackIff(INT64, Columns(aps, MacColumn));
  }

  lemma {:induction false} StrengthsArriveIff(aps: seq<ApFields>)
    requires Short(aps)
    ensures ReadInts(TextOf(ApsFields(aps), APS_NEG_RSSI), UINT32) == Some(Columns(aps, NegRssiColumn)) <==>
            AllFit(UINT32, Columns(aps, NegRssiColumn))
  {
    ApsLookup(ConnectedFields(aps), MacField(aps), FreqField(aps), RssiField(aps), AgeField(aps), APS_NEG_RSSI);
    IntsReadBackIff(UINT32, Columns(aps, NegRssiColumn));
  }

  lemma {:induction false} OptimizedLookups(aps: seq<ApFields>)
    requires Short(aps)
    ensures var fs := ApsFields(aps);
            && (ReadOptimized(fs, APS_COMMON_FREQ, APS_FREQUENCY, INT32, |aps|) == Some(Columns(aps, FreqColumn)) <==>
                OptimizedFits(INT32, Columns(aps, FreqColumn)))
            && (ReadOptimized(fs, APS_COMMON_AGE, APS_AGE, UINT32, |aps|) == Some(Columns(aps, AgeColumn)) <==>
                OptimizedFits(UINT32, Columns(aps, AgeColumn)))
  {
    var fs := ApsFields(aps);
    var e, a, b, c, d := ConnectedFields(aps), MacField(aps), FreqField(aps), RssiField(aps), AgeField(aps);
    ApsLookup(e, a, b, c, d, APS_COMMON_FREQ);
    ApsLookup(e, a, b, c, d, APS_FREQUENCY);
    OptimizedRoundTrip(fs, Columns(aps, FreqColumn), APS_COMMON_FREQ, APS_FREQUENCY, INT32);
    ApsLookup(e, a, b, c, d, APS_COMMON_AGE);
    ApsLookup(e, a, b, c, d, APS_AGE);
    OptimizedRoundTrip(fs, Columns(aps, AgeColumn), APS_COMMON_AGE, APS_AGE, UINT32);
  }

  lemma {:induction false} NegatedTwice(vs: seq<int>)
    ensures Negated(Negated(vs)) == vs
  {}

  /** A view is read exactly if each of its parts is. */
  lemma {:induction false} ReadsAsIff(s: Bytes, fs: seq<Field>, v: ApsView)
    requires ReadMessage(s) == Some(fs) && ReadInts(TextOf(fs, APS_MAC), INT64) == Some(v.macs)
    requires ReadConnected(Truncated(UINT32, NumberOf(fs, APS_CONNECTED))) == v.connected
    ensures ReadAps(s) == Some(v) <==>
            && ReadOptimized(fs, APS_COMMON_FREQ, APS_FREQUENCY, INT32, |v.macs|) == Some(v.freqs)
            && ReadInts(TextOf(fs, APS_NEG_RSSI), UINT32) == Some(Negated(v.rssis))
            && ReadOptimized(fs, APS_COMMON_AGE, APS_AGE, UINT32, |v.macs|) == Some(v.ages)
  {
    var rssis := ReadInts(TextOf(fs, APS_NEG_RSSI), UINT32);
    if rssis.Some? {
      NegatedTwice(rssis.value);
      NegatedTwice(v.rssis);
    }
  }

  lemma {:induction false} NegatedColumn(aps: seq<ApFields>)
    ensures Columns(aps, NegRssiColumn) == Negated(Columns(aps, RssiColumn))
    ensures AllFit(UINT32, Columns(aps, NegRssiColumn)) <==> forall i | 0 <= i < |aps| :: aps[i].rssi <= 0
  {
    var column := Columns(aps, NegRssiColumn);
    forall i | 0 <= i < |aps| ensures Holds(UINT32, column[i]) <==> aps[i].rssi <= 0 {}
  }

  /** No strength is positive, and frequencies and ages fit the form they are sent in. */
  predicate ApsFit(aps: seq<ApFields>)
    requires |aps| > 0
  {
    && (forall i | 0 <= i < |aps| :: aps[i].rssi <= 0)
    && OptimizedFits(INT32, Columns(aps, FreqColumn))
    && OptimizedFits(UINT32, Columns(aps, AgeColumn))
  }

  /** Reading what was written gives every address, frequency, strength and age, and the first connected access
      point, exactly if the values fit. */
  lemma {:induction false} ApsRoundTrip(aps: seq<ApFields>)
    requires Short(aps)
    ensures ReadAps(Message(ApsFields(aps))) == Some(ViewOf(aps)) <==> ApsFit(aps)
  {
    MessageRoundTrip(ApsFields(aps));
    MacsArrive(aps);
    StrengthsArriveIff(aps);
    OptimizedLookups(aps);
    ConnectedLookup(aps);
    NegatedColumn(aps);
    ReadsAsIff(Message(ApsFields(aps)), ApsFields(aps), ViewOf(aps));
  }

  /** Two access points of the largest age: the common age is sent as 2^32 and reads as absent. */
  lemma {:induction false} CommonAgeLost(a: ApFields, b: ApFields)
    requires a.age == b.age == 0xFFFF_FFFF
    ensures ReadAps(Message(ApsFields([a, b]))) != Some(ViewOf([a, b]))
  {
    assert AllSame(Columns([a, b], AgeColumn));
    ApsRoundTrip([a, b]);
  }

  // ----- cells -----

  const RQ_APS: nat := 3
  const RQ_CELLS: nat := 10

  const CELL_TYPE: nat := 1
  const CELL_ID1: nat := 2
  const CELL_ID2: nat := 3
  const CELL_ID3: nat := 4
  const CELL_ID4: nat := 5
  const CELL_ID5: nat := 6
  const CELL_ID6: nat := 7
  const CELL_CONNECTED: nat := 8
  const CELL_NEG_RSSI: nat := 9
  const CELL_AGE: nat := 10
  const CELL_TA: nat := 11
  const CELL_FIELDS: nat := 11

  /** A number that is sent only if present. */
  datatype Entry = Entry(tag: nat, present: bool, value: int)

  function NumberField(e: Entry): Field {
    Number(e.tag, ToUnsigned(e.value))
  }

  function Sent(es: seq<Entry>): seq<Field> {
    if es == [] then []
    else Sent(es[..|es| - 1]) + if es[|es| - 1].present then [NumberField(es[|es| - 1])] else []
  }

  /** Unknown identifiers are not sent; known ones are sent plus one. */
  function Identifier(tag: nat, v: int, unknown: int): Entry {
    Entry(tag, v != unknown, v + 1)
  }

  /** A field that is always sent. */
  function Fixed(tag: nat, v: int): Entry {
    Entry(tag, true, v)
  }

  function ConnectedFlag(h: Header): int {
    if h.connected then 1 else 0
  }

  function WireType(kind: CellKind): nat {
    match kind
    case NR => 8
    case LTE => 5
    case UMTS => 7
    case NBIOT => 6
    case CDMA => 3
    case GSM => 4
  }

  // the accessors of libel/utilities.c: identifiers a technology does not have read as unknown
  function Id1(c: CellData): int { if c.kind == CDMA then UNKNOWN_ID1 else c.id1 }
  function Id5(c: CellData): int { if c.kind == CDMA then UNKNOWN_ID5 else c.id5 }
  function Id6(c: CellData): int { if c.kind == CDMA then UNKNOWN_ID6 else c.freq }
  function TimingAdvance(c: CellData): int { if c.kind in {GSM, LTE, NR} then c.ta else UNKNOWN_TA }

  /** The k-th field of a cell; its tag is k + 1. */
  function CellEntry(h: Header, c: CellData, k: nat): (e: Entry)
    requires k < CELL_FIELDS
    ensures e.tag == k + 1
  {
    match k
    case 0 => Fixed(CELL_TYPE, WireType(c.kind))
    case 1 => Identifier(CELL_ID1, Id1(c), UNKNOWN_ID1)
    case 2 => Identifier(CELL_ID2, c.id2, UNKNOWN_ID2)
    case 3 => Identifier(CELL_ID3, c.id3, UNKNOWN_ID3)
    case 4 => Identifier(CELL_ID4, c.id4, UNKNOWN_ID4)
    case 5 => Identifier(CELL_ID5, Id5(c), UNKNOWN_ID5)
    case 6 => Identifier(CELL_ID6, Id6(c), UNKNOWN_ID6)
    case 7 => Fixed(CELL_CONNECTED, ConnectedFlag(h))
    case 8 => Fixed(CELL_NEG_RSSI, 0 - h.rssi as int)
    case 9 => Fixed(CELL_AGE, h.age)
    case _ => Identifier(CELL_TA, TimingAdvance(c), UNKNOWN_TA)
  }

  function CellEntries(h: Header, c: CellData): (es: seq<Entry>)
    ensures |es| == CELL_FIELDS && forall k | 0 <= k < CELL_FIELDS :: es[k] == CellEntry(h, c, k)
  {
    seq(CELL_FIELDS, k requires 0 <= k < CELL_FIELDS => CellEntry(h, c, k))
  }

  function CellBytes(h: Header, c: CellData): Bytes {
    Message(Sent(CellEntries(h, c)))
  }

  function EntryBytes(e: Entry): Bytes {
    if e.present then FieldBytes(NumberField(e)) else []
  }

  /** One entry more of a list being written. */
  lemma {:induction false} EntryWritten(start: Bytes, es: seq<Entry>, k: nat)
    requires k < |es|
    ensures start + Message(Sent(es[..k])) + EntryBytes(es[k]) == start + Message(Sent(es[..k + 1]))
  {
    assert es[..k + 1][..k] == es[..k];
    if es[k].present {
      MessageExtended(start, Sent(es[..k]), NumberField(es[k]));
    } else {
      assert Sent(es[..k]) + [] == Sent(es[..k]);
    }
  }

  /** soFar tells for each k what the stream holds after the first k fields. */
  ghost predicate Follows(soFar: nat -> Bytes, h: Header, c: CellData) {
    forall k: nat | k < CELL_FIELDS :: soFar(k) + EntryBytes(CellEntry(h, c, k)) == soFar(k + 1)
  }

  ghost function CellSoFar(start: Bytes, h: Header, c: CellData): nat -> Bytes {
    (k: nat) => if k <= CELL_FIELDS then start + Message(Sent(CellEntries(h, c)[..k])) else []
  }

  lemma {:induction false} CellFollows(start: Bytes, h: Header, c: CellData)
    ensures Follows(CellSoFar(start, h, c), h, c)
    ensures CellSoFar(start, h, c)(0) == start && CellSoFar(start, h, c)(CELL_FIELDS) == start + CellBytes(h, c)
  {
    var soFar := CellSoFar(start, h, c);
    forall k: nat | k < CELL_FIELDS ensures soFar(k) + EntryBytes(CellEntry(h, c, k)) == soFar(k + 1) {
      EntryWritten(start, CellEntries(h, c), k);
    }
    NoFields(start);
    assert CellEntries(h, c)[..CELL_FIELDS] == CellEntries(h, c);
  }

  /** encode_cell_field_element. */
  method EncodeCellFieldElement(ostream: OStream, tag: nat, v: int, unknown: int)
    requires ostream.Valid() && tag < 0x1_0000
    modifies ostream
    ensures ostream.Valid()
    ensures ostream.content == old(ostream.content) + EntryBytes(Identifier(tag, v, unknown))
  {
    if v != unknown {
      ostream.PutNumber(tag, v + 1);
    }
  }

  /** The k-th field, if it is one that is always sent. */
  method EncodeNextNumber(ostream: OStream, v: int, ghost h: Header, ghost c: CellData, k: nat,
                          ghost soFar: nat -> Bytes)
    requires ostream.Valid() && k < CELL_FIELDS && CellEntry(h, c, k) == Fixed(k + 1, v)
    requires Follows(soFar, h, c) && ostream.content == soFar(k)
    modifies ostream
    ensures ostream.Valid() && ostream.content == soFar(k + 1)
  {
    ostream.PutNumber(k + 1, v);
  }

  /** The k-th field, if it is an identifier. */
  method EncodeNextElement(ostream: OStream, v: int, unknown: int, ghost h: Header, ghost c: CellData, k: nat,
                           ghost soFar: nat -> Bytes)
    requires ostream.Valid() && k < CELL_FIELDS && CellEntry(h, c, k) == Identifier(k + 1, v, unknown)
    requires Follows(soFar, h, c) && ostream.content == soFar(k)
    modifies ostream
    ensures ostream.Valid() && ostream.content == soFar(k + 1)
  {
    EncodeCellFieldElement(ostream, k + 1, v, unknown);
  }

  /** The technology and the identifiers of a cell. */
  method EncodeCellIdentity(ostream: OStream, ghost h: Header, c: CellData, ghost soFar: nat -> Bytes)
    requires ostream.Valid() && Follows(soFar, h, c) && ostream.content == soFar(0)
    modifies ostream
    ensures ostream.Valid() && ostream.content == soFar(7)
  {
    EncodeNextNumber(ostream, WireType(c.kind), h, c, 0, soFar);
    EncodeNextElement(ostream, Id1(c), UNKNOWN_ID1, h, c, 1, soFar);
    EncodeNextElement(ostream, c.id2, UNKNOWN_ID2, h, c, 2, soFar);
    EncodeNextElement(ostream, c.id3, UNKNOWN_ID3, h, c, 3, soFar);
    EncodeNextElement(ostream, c.id4, UNKNOWN_ID4, h, c, 4, soFar);
    EncodeNextElement(ostream, Id5(c), UNKNOWN_ID5, h, c, 5, soFar);
    EncodeNextElement(ostream, Id6(c), UNKNOWN_ID6, h, c, 6, soFar);
  }

  /** The readings of a cell. */
  method EncodeCellReadings(ostream: OStream, h: Header, c: CellData, ghost soFar: nat -> Bytes)
    requires ostream.Valid() && Follows(soFar, h, c) && ostream.content == soFar(7)
    modifies ostream
    ensures ostream.Valid() && ostream.content == soFar(CELL_FIELDS)
  {
    EncodeNextNumber(ostream, ConnectedFlag(h), h, c, 7, soFar);
    EncodeNextNumber(ostream, 0 - h.rssi as int, h, c, 8, soFar);
    EncodeNextNumber(ostream, h.age, h, c, 9, soFar);
    EncodeNextElement(ostream, TimingAdvance(c), UNKNOWN_TA, h, c, 10, soFar);
  }

  /** encode_cell_field. */
  method EncodeCellField(ostream: OStream, h: Header, c: CellData)
    requires ostream.Valid()
    modifies ostream
    ensures ostream.Valid() && ostream.content == old(ostream.content) + CellBytes(h, c)
  {
    ghost var soFar := CellSoFar(ostream.content, h, c);
    CellFollows(ostream.content, h, c);
    EncodeCellIdentity(ostream, h, c, soFar);
    EncodeCellReadings(ostream, h, c, soFar);
  }

  /** What a server learns about a cell. */
  datatype CellView = CellView(wireType: nat, id1: Option<int>, id2: Option<int>, id3: Option<int>, id4: Option<int>,
                               id5: Option<int>, id6: Option<int>, connected: bool, rssi: int, age: nat, ta: Option<int>)

  function Known(v: int, unknown: int): Option<int> {
    if v == unknown then None else Some(v)
  }

  function CellViewOf(h: Header, c: CellData): CellView {
    CellView(WireType(c.kind), Known(Id1(c), UNKNOWN_ID1), Known(c.id2, UNKNOWN_ID2), Known(c.id3, UNKNOWN_ID3),
             Known(c.id4, UNKNOWN_ID4), Known(Id5(c), UNKNOWN_ID5), Known(Id6(c), UNKNOWN_ID6),
             h.connected, h.rssi, h.age, Known(TimingAdvance(c), UNKNOWN_TA))
  }

  function ReadIdentifier(t: IntType, n: nat): Option<int> {
    if Truncated(t, n) == 0 then None else Some(Truncated(t, n) - 1)
  }

  function ReadCell(s: Bytes): Option<CellView> {
    match ReadMessage(s)
    case None => None
    case Some(fs) =>
      Some(CellView(Truncated(UINT32, NumberOf(fs, CELL_TYPE)),
                    ReadIdentifier(UINT32, NumberOf(fs, CELL_ID1)), ReadIdentifier(UINT32, NumberOf(fs, CELL_ID2)),
                    ReadIdentifier(UINT32, NumberOf(fs, CELL_ID3)), ReadIdentifier(UINT64, NumberOf(fs, CELL_ID4)),
                    ReadIdentifier(UINT32, NumberOf(fs, CELL_ID5)), ReadIdentifier(UINT32, NumberOf(fs, CELL_ID6)),
                    NumberOf(fs, CELL_CONNECTED) != 0, -Truncated(UINT32, NumberOf(fs, CELL_NEG_RSSI)),
                    Truncated(UINT32, NumberOf(fs, CELL_AGE)), ReadIdentifier(UINT32, NumberOf(fs, CELL_TA))))
  }

  const WORD32: nat := 0x1_0000_0000
  const WORD64: nat := 0x1_0000_0000_0000_0000

  /** A known identifier arrives as its remainder: a negative one comes back 2^32 or 2^64 too large. */
  function Arriving(v: int, unknown: int, word: nat): Option<int>
    requires word > 0
  {
    if v == unknown then None else Some(v % word)
  }

  /** What a server learns about a cell that was sent. */
  function ArrivingView(h: Header, c: CellData): CellView {
    CellView(WireType(c.kind),
             Arriving(Id1(c), UNKNOWN_ID1, WORD32), Arriving(c.id2, UNKNOWN_ID2, WORD32),
             Arriving(c.id3, UNKNOWN_ID3, WORD32), Arriving(c.id4, UNKNOWN_ID4, WORD64),
             Arriving(Id5(c), UNKNOWN_ID5, WORD32), Arriving(Id6(c), UNKNOWN_ID6, WORD32),
             h.connected, -((0 - h.rssi as int) % WORD32), h.age, Arriving(TimingAdvance(c), UNKNOWN_TA, WORD32))
  }

  /** No identifier that is sent is negative; -1 stands for unknown. */
  predicate IdentifiersFit(c: CellData) {
    c.id3 >= -1 && c.id4 >= -1 && Id5(c) >= -1 && Id6(c) >= -1 && TimingAdvance(c) >= -1
  }

  predicate CellFits(h: Header, c: CellData) {
    h.rssi <= 0 && IdentifiersFit(c)
  }

  lemma {:induction false} SentLacks(es: seq<Entry>, tag: nat)
    requires forall i | 0 <= i < |es| :: es[i].tag != tag
    ensures Lacks(Sent(es), tag)
  {
    if es != [] {
      SentLacks(es[..|es| - 1], tag);
    }
  }

  /** In a list of entries with different tags each lookup finds its entry, or nothing if it was not sent. */
  lemma {:induction false} SentLookup(es: seq<Entry>, k: nat)
    requires k < |es| && forall i, j | 0 <= i < j < |es| :: es[i].tag != es[j].tag
    ensures NumberOf(Sent(es), es[k].tag) == if es[k].present then ToUnsigned(es[k].value) else 0
    decreases |es|
  {
    var n := |es| - 1;
    var rest, last := Sent(es[..n]), if es[n].present then [NumberField(es[n])] else [];
    if k < n {
      SentLookup(es[..n], k);
      assert Lacks(last, es[k].tag);
      LacksAppended(rest, last, es[k].tag);
    } else {
      SentLacks(es[..n], es[n].tag);
      LacksSkipped(rest, last, es[n].tag);
      assert es[n].present ==> last[1..] == [];
    }
  }

  lemma {:induction false} LacksAppended(a: seq<Field>, b: seq<Field>, tag: nat)
    requires Lacks(b, tag)
    ensures NumberOf(a + b, tag) == NumberOf(a, tag)
  {
    if a == [] {
      assert a + b == b;
      LacksReadsEmpty(b, tag);
    } else {
      assert (a + b)[1..] == a[1..] + b;
      LacksAppended(a[1..], b, tag);
    }
  }

  /** What is sent for an identifier reads as its remainder. The source computes v + 1 in signed 64 bits; at the
      largest v it is taken to wrap, and the unsigned field still reads v. */
  lemma {:induction false} IdentifierArrives32(v: Int32, unknown: int)
    requires unknown == -1 || v >= 0
    ensures ReadIdentifier(UINT32, if v != unknown then ToUnsigned(v as int + 1) else 0) == Arriving(v, unknown, WORD32)
  {
    TruncatedRemainder(v as int + 1);
  }

  lemma {:induction false} IdentifierArrives64(v: Int64)
    ensures ReadIdentifier(UINT64, if v != -1 then ToUnsigned(v as int + 1) else 0) == Arriving(v, -1, WORD64)
  {
    TruncatedRemainder(v as int + 1);
  }

  lemma {:induction false} EntryLookup(h: Header, c: CellData, k: nat)
    requires k < CELL_FIELDS
    ensures NumberOf(Sent(CellEntries(h, c)), k + 1) ==
            if CellEntry(h, c, k).present then ToUnsigned(CellEntry(h, c, k).value) else 0
  {
    SentLookup(CellEntries(h, c), k);
  }

  /** The identifier in entry k arrives. */
  lemma {:induction false} EntryArrives(h: Header, c: CellData, k: nat, v: Int32, unknown: int)
    requires k < CELL_FIELDS && CellEntry(h, c, k) == Identifier(k + 1, v, unknown)
    requires unknown == -1 || v >= 0
    ensures ReadIdentifier(UINT32, NumberOf(Sent(CellEntries(h, c)), k + 1)) == Arriving(v, unknown, WORD32)
  {
    EntryLookup(h, c, k);
    IdentifierArrives32(v, unknown);
  }

  /** The number in entry k arrives. */
  lemma {:induction false} FixedArrives(h: Header, c: CellData, k: nat, v: int)
    requires k < CELL_FIELDS && CellEntry(h, c, k) == Fixed(k + 1, v)
    ensures Truncated(UINT32, NumberOf(Sent(CellEntries(h, c)), k + 1)) == v % WORD32
  {
    EntryLookup(h, c, k);
    TruncatedRemainder(v);
  }

  lemma {:induction false} SmallArrives(h: Header, c: CellData, k: nat, v: Uint32)
    requires k < CELL_FIELDS && CellEntry(h, c, k) == Fixed(k + 1, v)
    ensures Truncated(UINT32, NumberOf(Sent(CellEntries(h, c)), k + 1)) == v
  {
    FixedArrives(h, c, k, v);
  }

  lemma {:induction false} FixedFieldsArrive(h: Header, c: CellData, fs: seq<Field>)
    requires fs == Sent(CellEntries(h, c))
    ensures Truncated(UINT32, NumberOf(fs, CELL_TYPE)) == WireType(c.kind)
    ensures Truncated(UINT32, NumberOf(fs, CELL_NEG_RSSI)) == (0 - h.rssi as int) % WORD32
    ensures Truncated(UINT32, NumberOf(fs, CELL_AGE)) == h.age
  {
    SmallArrives(h, c, 0, WireType(c.kind));
    FixedArrives(h, c, 8, 0 - h.rssi as int);
    SmallArrives(h, c, 9, h.age);
  }

  lemma {:induction false} FlagArrives(h: Header, c: CellData, fs: seq<Field>)
    requires fs == Sent(CellEntries(h, c))
    ensures NumberOf(fs, CELL_CONNECTED) == if h.connected then 1 else 0
  {
    EntryLookup(h, c, 7);
    UnsignedSmall(ConnectedFlag(h));
  }

  /** The fields carry the parts of the view. */
  predicate Convey(fs: seq<Field>, v: CellView) {
    && Truncated(UINT32, NumberOf(fs, CELL_TYPE)) == v.wireType && (NumberOf(fs, CELL_CONNECTED) != 0 <==> v.connected)
    && -Truncated(UINT32, NumberOf(fs, CELL_NEG_RSSI)) == v.rssi && Truncated(UINT32, NumberOf(fs, CELL_AGE)) == v.age
    && ReadIdentifier(UINT32, NumberOf(fs, CELL_ID1)) == v.id1 && ReadIdentifier(UINT32, NumberOf(fs, CELL_ID2)) == v.id2
    && ReadIdentifier(UINT32, NumberOf(fs, CELL_ID3)) == v.id3 && ReadIdentifier(UINT64, NumberOf(fs, CELL_ID4)) == v.id4
    && ReadIdentifier(UINT32, NumberOf(fs, CELL_ID5)) == v.id5 && ReadIdentifier(UINT32, NumberOf(fs, CELL_ID6)) == v.id6
    && ReadIdentifier(UINT32, NumberOf(fs, CELL_TA)) == v.ta
  }

  lemma {:induction false} CellReadsAs(s: Bytes, fs: seq<Field>, v: CellView)
    requires ReadMessage(s) == Some(fs) && Convey(fs, v)
    ensures ReadCell(s) == Some(v)
  {}

  lemma {:induction false} CodesArrive(h: Header, c: CellData, fs: seq<Field>)
    requires fs == Sent(CellEntries(h, c))
    ensures ReadIdentifier(UINT32, NumberOf(fs, CELL_ID1)) == Arriving(Id1(c), UNKNOWN_ID1, WORD32)
    ensures ReadIdentifier(UINT32, NumberOf(fs, CELL_ID2)) == Arriving(c.id2, UNKNOWN_ID2, WORD32)
    ensures ReadIdentifier(UINT32, NumberOf(fs, CELL_ID3)) == Arriving(c.id3, UNKNOWN_ID3, WORD32)
  {
    EntryArrives(h, c, 1, Id1(c), UNKNOWN_ID1);
    EntryArrives(h, c, 2, c.id2, UNKNOWN_ID2);
    EntryArrives(h, c, 3, c.id3, UNKNOWN_ID3);
  }

  lemma {:induction false} LargeIdentifierArrives(h: Header, c: CellData, fs: seq<Field>)
    requires fs == Sent(CellEntries(h, c))
    ensures ReadIdentifier(UINT64, NumberOf(fs, CELL_ID4)) == Arriving(c.id4, UNKNOWN_ID4, WORD64)
  {
    EntryLookup(h, c, 4);
    IdentifierArrives64(c.id4);
  }

  lemma {:induction false} PhysicalIdentifiersArrive(h: Header, c: CellData, fs: seq<Field>)
    requires fs == Sent(CellEntries(h, c))
    ensures ReadIdentifier(UINT32, NumberOf(fs, CELL_ID5)) == Arriving(Id5(c), UNKNOWN_ID5, WORD32)
    ensures ReadIdentifier(UINT32, NumberOf(fs, CELL_ID6)) == Arriving(Id6(c), UNKNOWN_ID6, WORD32)
    ensures ReadIdentifier(UINT32, NumberOf(fs, CELL_TA)) == Arriving(TimingAdvance(c), UNKNOWN_TA, WORD32)
  {
    EntryArrives(h, c, 5, Id5(c), UNKNOWN_ID5);
    EntryArrives(h, c, 6, Id6(c), UNKNOWN_ID6);
    EntryArrives(h, c, 10, TimingAdvance(c), UNKNOWN_TA);
  }

  lemma {:induction false} EntriesConvey(h: Header, c: CellData, fs: seq<Field>)
    requires fs == Sent(CellEntries(h, c))
    ensures Convey(fs, ArrivingView(h, c))
  {
    FixedFieldsArrive(h, c, fs);
    FlagArrives(h, c, fs);
    CodesArrive(h, c, fs);
    LargeIdentifierArrives(h, c, fs);
    PhysicalIdentifiersArrive(h, c, fs);
  }

  /** What arrives for any cell at all. */
  lemma {:induction false} CellRoundTrip(h: Header, c: CellData)
    ensures ReadCell(CellBytes(h, c)) == Some(ArrivingView(h, c))
  {
    var fs := Sent(CellEntries(h, c));
    MessageRoundTrip(fs);
    EntriesConvey(h, c, fs);
    CellReadsAs(CellBytes(h, c), fs, ArrivingView(h, c));
  }

  lemma {:induction false} ArrivesKnownIff(v: int, word: nat)
    requires word > 0 && 0 <= v + word && v < word
    ensures Arriving(v, -1, word) == Known(v, -1) <==> v >= -1
  {
    if v < 0 {
      assert v % word == v + word;
    }
  }

  lemma {:induction false} StrengthArrivesIff(rssi: Int16)
    ensures -((0 - rssi as int) % WORD32) == rssi <==> rssi <= 0
  {}

  lemma {:induction false} SameView(v: CellView, w: CellView)
    requires v.wireType == w.wireType && v.id1 == w.id1 && v.id2 == w.id2 && v.connected == w.connected && v.age == w.age
    ensures v == w <==> v.id3 == w.id3 && v.id4 == w.id4 && v.id5 == w.id5 && v.id6 == w.id6 && v.rssi == w.rssi
                        && v.ta == w.ta
  {}

  lemma {:induction false} ViewsAgreeIff(h: Header, c: CellData)
    ensures ArrivingView(h, c) == CellViewOf(h, c) <==> CellFits(h, c)
  {
    SameView(ArrivingView(h, c), CellViewOf(h, c));
    ArrivesKnownIff(c.id3, WORD32);
    ArrivesKnownIff(c.id4, WORD64);
    ArrivesKnownIff(Id5(c), WORD32);
    ArrivesKnownIff(Id6(c), WORD32);
    ArrivesKnownIff(TimingAdvance(c), WORD32);
    StrengthArrivesIff(h.rssi);
  }

  /** Every field of a cell reads back, and unknown identifiers are told from known ones, exactly if no identifier
      sent is negative and the strength is not positive. */
  lemma {:induction false} CellReadsBackIff(h: Header, c: CellData)
    ensures ReadCell(CellBytes(h, c)) == Some(CellViewOf(h, c)) <==> CellFits(h, c)
  {
    CellRoundTrip(h, c);
    ViewsAgreeIff(h, c);
  }

  /** Validation accepts a negative physical cell identity, and its field brings back something else. */
  lemma {:induction false} NegativeIdentifierLost()
    ensures exists h: Header, c: CellData ::
              ValidBeacon(Cell(h, c)) && c.id5 == -5 && ReadCell(CellBytes(h, c)).Some?
              && ReadCell(CellBytes(h, c)).value.id5 == Some(0xFFFF_FFFB)
  {
    var h, c := Header(0, -100, false), CellData(LTE, 310, 410, 1, 1, -5, 1, UNKNOWN_TA);
    CellRoundTrip(h, c);
    assert ValidBeacon(Cell(h, c)) && c.id5 == -5 && ReadCell(CellBytes(h, c)).Some?
           && ReadCell(CellBytes(h, c)).value.id5 == Some(0xFFFF_FFFB);
  }

  const EXAMPLE_HEADER: Header := Header(7, -100, true)
  const EXAMPLE_CELL: CellData := CellData(LTE, 310, 410, 1, 2, 3, 4, 5)

  /** The bytes of its k-th field. */
  function ExampleBytes(k: nat): Bytes
    requires k < CELL_FIELDS
  {
    [[0x08, 5], [0x10, 0xB7, 0x02], [0x18, 0x9B, 0x03], [0x20, 2], [0x28, 3], [0x30, 4], [0x38, 5], [0x40, 1], [0x48, 100],
     [0x50, 7], [0x58, 6]][k]
  }

  /** Field by field, a cell in bytes: tag and type, then the number. */
  lemma {:induction false} ExampleCell(k: nat)
    requires k < CELL_FIELDS
    ensures EntryBytes(CellEntry(EXAMPLE_HEADER, EXAMPLE_CELL, k)) == ExampleBytes(k)
  {
    var v := [5, 311, 411, 2, 3, 4, 5, 1, 100, 7, 6][k];
    assert CellEntry(EXAMPLE_HEADER, EXAMPLE_CELL, k) == Entry(k + 1, true, v);
    if v < 128 {
      SmallNumber(k + 1, v);
    } else {
      LargeNumber(k + 1, v);
    }
  }

  /** The same for two access points that share their frequency and not their age; the second is connected. */
  lemma {:induction false} ExampleAps(a: ApFields, b: ApFields)
    requires a == ApFields([0, 0, 0, 0, 0, 1], 2412, -50, 3, false) && b == ApFields([0, 0, 0, 0, 0, 2], 2412, -60, 4, true)
    ensures ConnectedFields([a, b]) == [Number(1, 2)]
    ensures MacField([a, b]) == Text(4, [1, 2])
    ensures FreqField([a, b]) == Number(2, 2413)
    ensures RssiField([a, b]) == Text(6, [50, 60])
    ensures AgeField([a, b]) == Text(7, [3, 4])
  {
    var aps := [a, b];
    assert aps[1..] == [b];
    assert FirstConnected(aps) == 1;
    UnsignedSmall(2);
    PackedPair(Columns(aps, MacColumn), 1, 2);
    PackedPair(Columns(aps, NegRssiColumn), 50, 60);
    PackedPair(Columns(aps, AgeColumn), 3, 4);
    assert !AllSame(Columns(aps, AgeColumn)) && AllSame(Columns(aps, FreqColumn));
    UnsignedSmall(2413);
  }

  lemma {:induction false} PackedPair(vs: seq<int>, x: nat, y: nat)
    requires vs == [x, y] && x < 128 && y < 128
    ensures Packed(Unsigned(vs)) == [x, y]
  {
    var u := Unsigned(vs);
    UnsignedSmall(x);
    UnsignedSmall(y);
    assert u == [x, y] && u[1..] == [y] && u[1..][1..] == [];
    assert Packed(u[1..]) == Varint(y) + Packed([]);
  }

  lemma {:induction false} SmallNumber(tag: nat, v: nat)
    requires tag < 16 && v < 128
    ensures EntryBytes(Entry(tag, true, v)) == [8 * tag, v]
  {
    UnsignedSmall(v);
  }

  lemma {:induction false} LargeNumber(tag: nat, v: nat)
    requires tag < 16 && 128 <= v < 0x4000
    ensures EntryBytes(Entry(tag, true, v)) == [8 * tag, 128 + v % 128, v / 128]
  {
    UnsignedSmall(v);
    assert Varint(v) == [128 + v % 128] + Varint(v / 128);
  }

  // ----- the beacons of a request -----

  datatype CellBeacon = CellBeacon(h: Header, c: CellData)

  function CellMessages(cells: seq<CellBeacon>): seq<Field> {
    if cells == [] then []
    else CellMessages(cells[..|cells| - 1]) +
         [Text(RQ_CELLS, CellBytes(cells[|cells| - 1].h, cells[|cells| - 1].c))]
  }

  function ApMessage(aps: seq<ApFields>): seq<Field> {
    if aps == [] then [] else [Text(RQ_APS, Message(ApsFields(aps)))]
  }

  lemma {:induction false} SentLength(es: seq<Entry>)
    requires forall i | 0 <= i < |es| :: es[i].tag < 16
    ensures |Message(Sent(es))| <= 11 * |es|
  {
    if es != [] {
      var n := |es| - 1;
      SentLength(es[..n]);
      EntryWritten([], es, n);
      assert es[..n + 1] == es;
      if es[n].present {
        FieldLength(NumberField(es[n]));
      }
    }
  }

  lemma {:induction false} CellLength(h: Header, c: CellData)
    ensures |CellBytes(h, c)| <= 121
  {
    var es := CellEntries(h, c);
    SentLength(es);
  }

  /** The dry run of encode_cell_fields. */
  method SizeOfCell(cell: CellBeacon) returns (n: nat)
    ensures n == |CellBytes(cell.h, cell.c)|
  {
    var substream := new OStream(true);
    EncodeCellField(substream, cell.h, cell.c);
    n := substream.bytesWritten;
  }

  lemma {:induction false} OneCellWritten(start: Bytes, cell: CellBeacon, n: nat, end: Bytes)
    requires n == |CellBytes(cell.h, cell.c)|
    requires end == start + Varint(8 * RQ_CELLS + WT_STRING) + Varint(ToUnsigned(n)) + CellBytes(cell.h, cell.c)
    ensures end == start + FieldBytes(Text(RQ_CELLS, CellBytes(cell.h, cell.c)))
  {
    CellLength(cell.h, cell.c);
    TextWritten(start, RQ_CELLS, CellBytes(cell.h, cell.c), n, end);
  }

  method EncodeOneCell(ostream: OStream, cell: CellBeacon)
    requires ostream.Valid()
    modifies ostream
    ensures ostream.Valid()
    ensures ostream.content == old(ostream.content) + FieldBytes(Text(RQ_CELLS, CellBytes(cell.h, cell.c)))
  {
    ghost var start := ostream.content;
    var n := SizeOfCell(cell);
    ostream.PutTag(WT_STRING, RQ_CELLS);
    ostream.PutVarint(n);
    EncodeCellField(ostream, cell.h, cell.c);
    OneCellWritten(start, cell, n, ostream.content);
  }

  method EncodeNextCell(ostream: OStream, cells: seq<CellBeacon>, i: nat, ghost start: Bytes)
    requires ostream.Valid() && i < |cells| && ostream.content == start + Message(CellMessages(cells[..i]))
    modifies ostream
    ensures ostream.Valid() && ostream.content == start + Message(CellMessages(cells[..i + 1]))
  {
    EncodeOneCell(ostream, cells[i]);
    CellWritten(start, cells, i);
  }

  /** encode_cell_fields: every cell behind its length, found by a dry run. */
  method EncodeCellFields(ostream: OStream, cells: seq<CellBeacon>)
    requires ostream.Valid()
    modifies ostream
    ensures ostream.Valid() && ostream.content == old(ostream.content) + Message(CellMessages(cells))
  {
    ghost var start := ostream.content;
    NoFields(start);
    for i := 0 to |cells|
      invariant ostream.Valid() && ostream.content == start + Message(CellMessages(cells[..i]))
    {
      EncodeNextCell(ostream, cells, i, start);
    }
    AllCells(cells);
  }

  lemma {:induction false} AllCells(cells: seq<CellBeacon>)
    ensures Message(CellMessages(cells[..|cells|])) == Message(CellMessages(cells))
  {
    assert cells[..|cells|] == cells;
  }

  lemma {:induction false} CellMessagesExtended(cells: seq<CellBeacon>, i: nat)
    requires i < |cells|
    ensures CellMessages(cells[..i + 1]) == CellMessages(cells[..i]) + [Text(RQ_CELLS, CellBytes(cells[i].h, cells[i].c))]
  {
    assert cells[..i + 1][..i] == cells[..i];
  }

  lemma {:induction false} CellWritten(start: Bytes, cells: seq<CellBeacon>, i: nat)
    requires i < |cells|
    ensures start + Message(CellMessages(cells[..i])) + FieldBytes(Text(RQ_CELLS, CellBytes(cells[i].h, cells[i].c)))
            == start + Message(CellMessages(cells[..i + 1]))
  {
    MessageExtended(start, CellMessages(cells[..i]), Text(RQ_CELLS, CellBytes(cells[i].h, cells[i].c)));
    CellMessagesExtended(cells, i);
  }

  /** The dry run of encode_submessage. */
  method SizeOfAps(aps: seq<ApFields>) returns (n: nat)
    requires Short(aps)
    ensures n == |Message(ApsFields(aps))|
  {
    var substream := new OStream(true);
    EncodeApFields(substream, aps);
    n := substream.bytesWritten;
  }

  lemma {:induction false} SubmessageWritten(start: Bytes, aps: seq<ApFields>, n: nat, end: Bytes)
    requires Short(aps) && n == |Message(ApsFields(aps))|
    requires end == start + Varint(8 * RQ_APS + WT_STRING) + Varint(ToUnsigned(n)) + Message(ApsFields(aps))
    ensures end == start + Message(ApMessage(aps))
  {
    ApsLength(aps);
    TextWritten(start, RQ_APS, Message(ApsFields(aps)), n, end);
    OneField(Text(RQ_APS, Message(ApsFields(aps))));
  }

  /** encode_submessage for the access points. */
  method EncodeApSubmessage(ostream: OStream, aps: seq<ApFields>)
    requires ostream.Valid() && Short(aps)
    modifies ostream
    ensures ostream.Valid() && ostream.content == old(ostream.content) + Message(ApMessage(aps))
  {
    ghost var start := ostream.content;
    ostream.PutTag(WT_STRING, RQ_APS);
    var n := SizeOfAps(aps);
    ostream.PutVarint(n);
    EncodeApFields(ostream, aps);
    SubmessageWritten(start, aps, n, ostream.content);
  }

  /** The beacon part of Rq_callback: nothing for a class without beacons. */
  method EncodeBeacons(ostream: OStream, aps: seq<ApFields>, cells: seq<CellBeacon>)
    requires ostream.Valid() && |aps| <= MAX_AP_BEACONS
    modifies ostream
    ensures ostream.Valid()
    ensures ostream.content == old(ostream.content) + Message(ApMessage(aps) + CellMessages(cells))
  {
    ghost var start := ostream.content;
    NoFields(start);
    if |aps| > 0 {
      EncodeApSubmessage(ostream, aps);
    }
    assert ostream.content == start + Message(ApMessage(aps));
    NoFields(ostream.content);
    if |cells| > 0 {
      EncodeCellFields(ostream, cells);
    }
    assert ostream.content == start + Message(ApMessage(aps)) + Message(CellMessages(cells));
    MessagesJoined(start, ApMessage(aps), CellMessages(cells));
  }

  // ----- reading a request -----

  datatype ApsPart = NoAps | Aps(view: ApsView)
  datatype RequestView = RequestView(aps: ApsPart, cells: seq<CellView>)

  function ReadCells(fs: seq<Field>): Option<seq<CellView>> {
    if fs == [] then Some([]) else
      var n := |fs| - 1;
      match ReadCells(fs[..n])
      case None => None
      case Some(cells) =>
        if fs[n].Text? && fs[n].tag == RQ_CELLS then
          match ReadCell(fs[n].data)
          case None => None
          case Some(c) => Some(cells + [c])
        else Some(cells)
  }

  function ReadApsPart(s: Bytes): Option<ApsPart> {
    if s == [] then Some(NoAps) else
      match ReadAps(s)
      case None => None
      case Some(view) => Some(Aps(view))
  }

  function ReadRequest(s: Bytes): Option<RequestView> {
    match ReadMessage(s)
    case None => None
    case Some(fs) =>
      match ReadApsPart(TextOf(fs, RQ_APS))
      case None => None
      case Some(aps) =>
        match ReadCells(fs)
        case None => None
        case Some(cells) => Some(RequestView(aps, cells))
  }

  function CellViews(cells: seq<CellBeacon>): (v: seq<CellView>)
    ensures |v| == |cells| && forall i | 0 <= i < |cells| :: v[i] == CellViewOf(cells[i].h, cells[i].c)
  {
    seq(|cells|, i requires 0 <= i < |cells| => CellViewOf(cells[i].h, cells[i].c))
  }

  /** The cells as they arrive. */
  function ArrivingViews(cells: seq<CellBeacon>): (v: seq<CellView>)
    ensures |v| == |cells| && forall i | 0 <= i < |cells| :: v[i] == ArrivingView(cells[i].h, cells[i].c)
  {
    seq(|cells|, i requires 0 <= i < |cells| => ArrivingView(cells[i].h, cells[i].c))
  }

  lemma {:induction false} CellsArriveIff(cells: seq<CellBeacon>)
    ensures ArrivingViews(cells) == CellViews(cells) <==> forall i | 0 <= i < |cells| :: CellFits(cells[i].h, cells[i].c)
  {
    var a, b := ArrivingViews(cells), CellViews(cells);
    forall i | 0 <= i < |cells| ensures a[i] == b[i] <==> CellFits(cells[i].h, cells[i].c) {
      ViewsAgreeIff(cells[i].h, cells[i].c);
    }
    if forall i | 0 <= i < |cells| :: CellFits(cells[i].h, cells[i].c) {
      assert a == b;
    }
  }

  lemma {:induction false} ReadCellsStep(fs: seq<Field>, n: nat, views: seq<CellView>, v: CellView)
    requires |fs| == n + 1 && ReadCells(fs[..n]) == Some(views)
    requires fs[n].Text? && fs[n].tag == RQ_CELLS && ReadCell(fs[n].data) == Some(v)
    ensures ReadCells(fs) == Some(views + [v])
  {}

  lemma {:induction false} NoCellsToRead(pre: seq<Field>)
    requires forall i | 0 <= i < |pre| :: pre[i].tag != RQ_CELLS
    ensures ReadCells(pre) == Some([])
  {
    if pre != [] {
      NoCellsToRead(pre[..|pre| - 1]);
    }
  }

  lemma {:induction false} ArrivingViewsExtended(cells: seq<CellBeacon>, k: nat)
    requires |cells| == k + 1
    ensures ArrivingViews(cells) == ArrivingViews(cells[..k]) + [ArrivingView(cells[k].h, cells[k].c)]
  {
    var a, b := ArrivingViews(cells), ArrivingViews(cells[..k]) + [ArrivingView(cells[k].h, cells[k].c)];
    forall i | 0 <= i < |cells| ensures a[i] == b[i] {
      if i < k {
        assert cells[..k][i] == cells[i];
      }
    }
  }

  lemma {:induction false} CellsReadBack(pre: seq<Field>, cells: seq<CellBeacon>)
    requires Lacks(pre, RQ_CELLS)
    ensures ReadCells(pre + CellMessages(cells)) == Some(ArrivingViews(cells))
    decreases |cells|
  {
    var fs := pre + CellMessages(cells);
    if cells != [] {
      var k := |cells| - 1;
      var f := Text(RQ_CELLS, CellBytes(cells[k].h, cells[k].c));
      assert fs == pre + CellMessages(cells[..k]) + [f];
      assert fs[..|fs| - 1] == pre + CellMessages(cells[..k]);
      CellsReadBack(pre, cells[..k]);
      CellRoundTrip(cells[k].h, cells[k].c);
      ArrivingViewsExtended(cells, k);
      ReadCellsStep(fs, |fs| - 1, ArrivingViews(cells[..k]), ArrivingView(cells[k].h, cells[k].c));
    } else {
      assert fs == pre;
      NoCellsToRead(pre);
    }
  }

  lemma {:induction false} OthersSkipped(fs: seq<Field>, post: seq<Field>)
    requires Lacks(post, RQ_CELLS)
    ensures ReadCells(fs + post) == ReadCells(fs)
    decreases |post|
  {
    if post == [] {
      assert fs + post == fs;
    } else {
      var n := |post| - 1;
      assert (fs + post)[..|fs + post| - 1] == fs + post[..n];
      OthersSkipped(fs, post[..n]);
    }
  }

  lemma {:induction false} CellsHaveOneTag(cells: seq<CellBeacon>)
    ensures forall i | 0 <= i < |CellMessages(cells)| :: CellMessages(cells)[i].tag == RQ_CELLS
  {
    if cells != [] {
      CellsHaveOneTag(cells[..|cells| - 1]);
    }
  }

  /** Fields of a request that are neither access points nor cells. */
  predicate Others(fs: seq<Field>) {
    Lacks(fs, RQ_APS) && Lacks(fs, RQ_CELLS)
  }

  lemma {:induction false} ApTextFound(pre: seq<Field>, aps: seq<ApFields>, rest: seq<Field>)
    requires Others(pre) && Lacks(rest, RQ_APS)
    ensures TextOf(pre + ApMessage(aps) + rest, RQ_APS) == if aps == [] then [] else Message(ApsFields(aps))
  {
    if aps == [] {
      assert pre + ApMessage(aps) + rest == pre + rest;
      LacksSkipped(pre, rest, RQ_APS);
      LacksReadsEmpty(rest, RQ_APS);
    } else {
      LookupMiddle(pre, ApMessage(aps)[0], rest, RQ_APS);
    }
  }

  lemma {:induction false} ApsNotEmpty(aps: seq<ApFields>)
    requires |aps| > 0
    ensures Message(ApsFields(aps)) != []
  {
    assert |ApsFields(aps)| >= 4;
  }

  /** What a server should learn about a class of beacons that may be empty. */
  function ApsPartOf(aps: seq<ApFields>): ApsPart {
    if aps == [] then NoAps else Aps(ViewOf(aps))
  }

  lemma {:induction false} ApsPartReads(aps: seq<ApFields>)
    requires |aps| <= MAX_AP_BEACONS
    ensures ReadApsPart(if aps == [] then [] else Message(ApsFields(aps))) == Some(ApsPartOf(aps)) <==>
            aps == [] || ApsFit(aps)
  {
    if aps != [] {
      ApsRoundTrip(aps);
      ApsNotEmpty(aps);
    }
  }

  /** The fields of a request: the beacons, and any others around them. */
  function RequestFields(pre: seq<Field>, aps: seq<ApFields>, mid: seq<Field>, cells: seq<CellBeacon>, post: seq<Field>)
    : seq<Field>
  {
    pre + ApMessage(aps) + (mid + CellMessages(cells) + post)
  }

  lemma {:induction false} RequestCells(pre: seq<Field>, aps: seq<ApFields>, mid: seq<Field>, cells: seq<CellBeacon>,
                                        post: seq<Field>)
    requires Others(pre) && Others(mid) && Others(post)
    ensures ReadCells(RequestFields(pre, aps, mid, cells, post)) == Some(ArrivingViews(cells))
  {
    var am, cm := ApMessage(aps), CellMessages(cells);
    LacksJoined(pre, am, RQ_CELLS);
    LacksJoined(pre + am, mid, RQ_CELLS);
    CellsReadBack(pre + am + mid, cells);
    OthersSkipped(pre + am + mid + cm, post);
    Regrouped(pre, am, mid, cm, post);
  }

  lemma {:induction false} RequestAps(pre: seq<Field>, aps: seq<ApFields>, mid: seq<Field>, cells: seq<CellBeacon>,
                                      post: seq<Field>)
    requires Others(pre) && Others(mid) && Others(post)
    ensures TextOf(RequestFields(pre, aps, mid, cells, post), RQ_APS) ==
            if aps == [] then [] else Message(ApsFields(aps))
  {
    CellsHaveOneTag(cells);
    ApTextFound(pre, aps, mid + CellMessages(cells) + post);
  }

  /** The beacons of a request fit the types of their fields. */
  predicate RequestFits(aps: seq<ApFields>, cells: seq<CellBeacon>) {
    (aps == [] || ApsFit(aps)) && forall i | 0 <= i < |cells| :: CellFits(cells[i].h, cells[i].c)
  }

  /** A server that reads a request gets back every access point and, in order, every cell, whatever other fields stand
      around them, exactly if the beacons fit. */
  lemma {:induction false} RequestRoundTrip(pre: seq<Field>, aps: seq<ApFields>, mid: seq<Field>, cells: seq<CellBeacon>,
                                            post: seq<Field>)
    requires |aps| <= MAX_AP_BEACONS && Others(pre) && Others(mid) && Others(post)
    ensures ReadRequest(Message(RequestFields(pre, aps, mid, cells, post))) ==
            Some(RequestView(ApsPartOf(aps), CellViews(cells)))
            <==> RequestFits(aps, cells)
  {
    MessageRoundTrip(RequestFields(pre, aps, mid, cells, post));
    RequestAps(pre, aps, mid, cells, post);
    RequestCells(pre, aps, mid, cells, post);
    ApsPartReads(aps);
    CellsArriveIff(cells);
  }
}
