/** Protocol Buffers wire form ("Base 128 Varints", "Message Structure" and "Packed" repeated fields of the Protocol
    Buffers Encoding specification), with its reader. */
module ProtocolBuffers {
  import opened Prelude

  type Bytes = seq<Byte>

  const WT_VARINT: nat := 0
  const WT_STRING: nat := 2

  /** A 64-bit signed value as the unsigned value that goes on the wire, and back. */
  function ToUnsigned(v: int): (u: nat)
    ensures u < 0x1_0000_0000_0000_0000
  {
    v % 0x1_0000_0000_0000_0000
  }

  function ToSigned(u: nat): int {
    if u < 0x8000_0000_0000_0000 then u else u - 0x1_0000_0000_0000_0000
  }

  /** The integer types of a message's fields. */
  datatype IntType = UINT32 | INT32 | UINT64 | INT64

  /** How a field of each type reads its varint: a value wider than the field is truncated ("Updating A Message Type"
      in the Protocol Buffers Language Guide). */
  function Truncated(t: IntType, u: nat): int {
    match t
    case UINT32 => u % 0x1_0000_0000
    case INT32 => if u % 0x1_0000_0000 < 0x8000_0000 then u % 0x1_0000_0000 else u % 0x1_0000_0000 - 0x1_0000_0000
    case UINT64 => u % 0x1_0000_0000_0000_0000
    case INT64 => ToSigned(u % 0x1_0000_0000_0000_0000)
  }

  /** The values a field of each type can hold. */
  predicate Holds(t: IntType, v: int) {
    match t
    case UINT32 => 0 <= v < 0x1_0000_0000
    case INT32 => -0x8000_0000 <= v < 0x8000_0000
    case UINT64 => 0 <= v < 0x1_0000_0000_0000_0000
    case INT64 => -0x8000_0000_0000_0000 <= v < 0x8000_0000_0000_0000
  }

  /** A number written in 64 bits survives exactly in a field that can hold it. */
  lemma {:induction false} TruncatedIff(t: IntType, v: int)
    requires -0x8000_0000_0000_0000 <= v < 0x1_0000_0000_0000_0000
    ensures Truncated(t, ToUnsigned(v)) == v <==> Holds(t, v)
  {}

  lemma {:induction false} RemainderTwice(v: int)
    ensures v % 0x1_0000_0000_0000_0000 % 0x1_0000_0000 == v % 0x1_0000_0000
  {
    var q, r := v / 0x1_0000_0000_0000_0000, v % 0x1_0000_0000_0000_0000;
    SameRemainder(v, q * 0x1_0000_0000 + r / 0x1_0000_0000, r % 0x1_0000_0000);
  }

  lemma {:induction false} SameRemainder(v: int, q: int, r: int)
    requires v == q * 0x1_0000_0000 + r && 0 <= r < 0x1_0000_0000
    ensures v % 0x1_0000_0000 == r
  {}

  /** An unsigned field keeps the remainder. */
  lemma {:induction false} TruncatedRemainder(v: int)
    ensures Truncated(UINT32, ToUnsigned(v)) == v % 0x1_0000_0000
    ensures Truncated(UINT64, ToUnsigned(v)) == ToUnsigned(v) == v % 0x1_0000_0000_0000_0000
  {
    RemainderTwice(v);
  }

  /** Seven bits a byte, lowest first, the top bit set on all but the last. */
  function Varint(v: nat): (r: Bytes)
    ensures |r| > 0
  {
    if v < 128 then [v] else [128 + v % 128] + Varint(v / 128)
  }

  datatype Read<T> = Read(value: T, rest: Bytes)

  /** Reads one varint off the front. */
  function ReadVarint(s: Bytes): (r: Option<Read<nat>>)
    ensures r.Some? ==> |r.value.rest| < |s|
  {
    if s == [] then None
    else if s[0] < 128 then Some(Read(s[0], s[1..]))
    else
      match ReadVarint(s[1..])
      case None => None
      case Some(r) => Some(Read(s[0] - 128 + 128 * r.value, r.rest))
  }

  lemma {:induction false} VarintRoundTrip(v: nat, rest: Bytes)
    ensures ReadVarint(Varint(v) + rest) == Some(Read(v, rest))
  {
    var s := Varint(v) + rest;
    if v < 128 {
      assert s[1..] == rest;
    } else {
      assert s[1..] == Varint(v / 128) + rest;
      VarintRoundTrip(v / 128, rest);
    }
  }

  /** A packed repeated field: varints end to end. */
  function Packed(vs: seq<nat>): Bytes {
    if vs == [] then [] else Varint(vs[0]) + Packed(vs[1..])
  }

  function ReadPacked(s: Bytes): Option<seq<nat>>
    decreases |s|
  {
    if s == [] then Some([]) else
      match ReadVarint(s)
      case None => None
      case Some(r) =>
        match ReadPacked(r.rest)
        case None => None
        case Some(vs) => Some([r.value] + vs)
  }

  lemma {:induction false} PackedRoundTrip(vs: seq<nat>)
    ensures ReadPacked(Packed(vs)) == Some(vs)
  {
    if vs != [] {
      VarintRoundTrip(vs[0], Packed(vs[1..]));
      PackedRoundTrip(vs[1..]);
      assert vs == [vs[0]] + vs[1..];
    }
  }

  lemma {:induction false} PackedAppend(a: seq<nat>, b: seq<nat>)
    ensures Packed(a + b) == Packed(a) + Packed(b)
  {
    if a == [] {
      assert a + b == b;
    } else {
      assert (a + b)[1..] == a[1..] + b;
      PackedAppend(a[1..], b);
    }
  }

  /** A field of a message: a number, or bytes behind their length. */
  datatype Field = Number(tag: nat, value: nat) | Text(tag: nat, data: Bytes)

  function FieldBytes(f: Field): (r: Bytes)
    ensures |r| > 0
  {
    match f
    case Number(tag, value) => Varint(8 * tag + WT_VARINT) + Varint(value)
    case Text(tag, data) => Varint(8 * tag + WT_STRING) + Varint(|data|) + data
  }

  function Message(fs: seq<Field>): Bytes {
    if fs == [] then [] else FieldBytes(fs[0]) + Message(fs[1..])
  }

  function ReadField(s: Bytes): (r: Option<Read<Field>>)
    ensures r.Some? ==> |r.value.rest| < |s|
  {
    match ReadVarint(s)
    case None => None
    case Some(key) =>
      match ReadVarint(key.rest)
      case None => None
      case Some(n) =>
        if key.value % 8 == WT_VARINT then Some(Read(Number(key.value / 8, n.value), n.rest))
        else if key.value % 8 == WT_STRING && n.value <= |n.rest| then
          Some(Read(Text(key.value / 8, n.rest[..n.value]), n.rest[n.value..]))
        else None
  }

  function ReadMessage(s: Bytes): Option<seq<Field>>
    decreases |s|
  {
    if s == [] then Some([]) else
      match ReadField(s)
      case None => None
      case Some(r) =>
        match ReadMessage(r.rest)
        case None => None
        case Some(fs) => Some([r.value] + fs)
  }

  lemma {:induction false} ConcatAssociates(a: Bytes, b: Bytes, c: Bytes)
    ensures a + b + c == a + (b + c)
  {}

  lemma {:induction false} KeyParts(tag: nat, wireType: nat)
    requires wireType < 8
    ensures (8 * tag + wireType) % 8 == wireType && (8 * tag + wireType) / 8 == tag
  {}

  lemma {:induction false} NumberRoundTrip(tag: nat, value: nat, rest: Bytes)
    ensures ReadField(FieldBytes(Number(tag, value)) + rest) == Some(Read(Number(tag, value), rest))
  {
    var key := Varint(8 * tag + WT_VARINT);
    ConcatAssociates(key, Varint(value), rest);
    VarintRoundTrip(8 * tag + WT_VARINT, Varint(value) + rest);
    VarintRoundTrip(value, rest);
    KeyParts(tag, WT_VARINT);
  }

  lemma {:induction false} TextRoundTrip(tag: nat, data: Bytes, rest: Bytes)
    ensures ReadField(FieldBytes(Text(tag, data)) + rest) == Some(Read(Text(tag, data), rest))
  {
    var key, size := Varint(8 * tag + WT_STRING), Varint(|data|);
    ConcatAssociates(key + size, data, rest);
    ConcatAssociates(key, size, data + rest);
    VarintRoundTrip(8 * tag + WT_STRING, size + (data + rest));
    VarintRoundTrip(|data|, data + rest);
    KeyParts(tag, WT_STRING);
    assert (data + rest)[..|data|] == data && (data + rest)[|data|..] == rest;
  }

  lemma {:induction false} FieldRoundTrip(f: Field, rest: Bytes)
    ensures ReadField(FieldBytes(f) + rest) == Some(Read(f, rest))
  {
    match f
    case Number(tag, value) => NumberRoundTrip(tag, value, rest);
    case Text(tag, data) => TextRoundTrip(tag, data, rest);
  }

  /** Whatever fields are written, in whatever order, the reader returns them. */
  lemma {:induction false} MessageRoundTrip(fs: seq<Field>)
    ensures ReadMessage(Message(fs)) == Some(fs)
  {
    if fs != [] {
      FieldRoundTrip(fs[0], Message(fs[1..]));
      MessageRoundTrip(fs[1..]);
      assert fs == [fs[0]] + fs[1..];
    }
  }

  lemma {:induction false} MessageAppend(a: seq<Field>, b: seq<Field>)
    ensures Message(a + b) == Message(a) + Message(b)
  {
    if a == [] {
      assert a + b == b;
    } else {
      assert (a + b)[1..] == a[1..] + b;
      MessageAppend(a[1..], b);
    }
  }

  /** The number or the bytes of the first field with a tag; absent numbers read as 0, absent bytes as empty. */
  function NumberOf(fs: seq<Field>, tag: nat): nat {
    if fs == [] then 0 else if fs[0].Number? && fs[0].tag == tag then fs[0].value else NumberOf(fs[1..], tag)
  }

  function TextOf(fs: seq<Field>, tag: nat): Bytes {
    if fs == [] then [] else if fs[0].Text? && fs[0].tag == tag then fs[0].data else TextOf(fs[1..], tag)
  }

  predicate Lacks(fs: seq<Field>, tag: nat) {
    forall i | 0 <= i < |fs| :: fs[i].tag != tag
  }

  lemma {:induction false} LacksSkipped(a: seq<Field>, b: seq<Field>, tag: nat)
    requires Lacks(a, tag)
    ensures NumberOf(a + b, tag) == NumberOf(b, tag) && TextOf(a + b, tag) == TextOf(b, tag)
  {
    if a == [] {
      assert a + b == b;
    } else {
      assert (a + b)[1..] == a[1..] + b;
      LacksSkipped(a[1..], b, tag);
    }
  }

  lemma {:induction false} LacksReadsEmpty(fs: seq<Field>, tag: nat)
    requires Lacks(fs, tag)
    ensures NumberOf(fs, tag) == 0 && TextOf(fs, tag) == []
  {
    if fs != [] {
      LacksReadsEmpty(fs[1..], tag);
    }
  }

  /** A lookup finds the only field that can carry the tag. */
  lemma {:induction false} LookupMiddle(before: seq<Field>, f: Field, after: seq<Field>, tag: nat)
    requires Lacks(before, tag) && Lacks(after, tag)
    ensures NumberOf(before + [f] + after, tag) == if f.Number? && f.tag == tag then f.value else 0
    ensures TextOf(before + [f] + after, tag) == if f.Text? && f.tag == tag then f.data else []
  {
    assert before + [f] + after == before + ([f] + after);
    LacksSkipped(before, [f] + after, tag);
    assert ([f] + after)[1..] == after;
    LacksReadsEmpty(after, tag);
  }

  lemma {:induction false} UnsignedSmall(n: int)
    requires 0 <= n < 0x1_0000_0000_0000_0000
    ensures ToUnsigned(n) == n
  {}

  lemma {:induction false} TextAssembled(start: Bytes, tag: nat, data: Bytes)
    ensures start + Varint(8 * tag + WT_STRING) + Varint(|data|) + data == start + FieldBytes(Text(tag, data))
  {
    ConcatAssociates(start, Varint(8 * tag + WT_STRING), Varint(|data|));
    ConcatAssociates(start, Varint(8 * tag + WT_STRING) + Varint(|data|), data);
  }

  /** A length and that many bytes behind a tag are a field. */
  lemma {:induction false} TextWritten(start: Bytes, tag: nat, data: Bytes, n: nat, end: Bytes)
    requires n == |data| < 0x1_0000_0000_0000_0000
    requires end == start + Varint(8 * tag + WT_STRING) + Varint(ToUnsigned(n)) + data
    ensures end == start + FieldBytes(Text(tag, data))
  {
    UnsignedSmall(n);
    TextAssembled(start, tag, data);
  }

  lemma {:induction false} NumberAssembled(start: Bytes, tag: nat, value: nat)
    ensures start + Varint(8 * tag + WT_VARINT) + Varint(value) == start + FieldBytes(Number(tag, value))
  {
    ConcatAssociates(start, Varint(8 * tag + WT_VARINT), Varint(value));
  }

  lemma {:induction false} OneField(f: Field)
    ensures Message([f]) == FieldBytes(f)
  {
    assert [f][1..] == [];
    assert Message([f]) == FieldBytes(f) + Message([]);
  }

  lemma {:induction false} MessagesJoined(start: Bytes, a: seq<Field>, b: seq<Field>)
    ensures start + Message(a) + Message(b) == start + Message(a + b)
  {
    MessageAppend(a, b);
    ConcatAssociates(start, Message(a), Message(b));
  }

  lemma {:induction false} NoFields(start: Bytes)
    ensures start + Message([]) == start
  {}

  lemma {:induction false} Regrouped(a: seq<Field>, b: seq<Field>, c: seq<Field>, d: seq<Field>, e: seq<Field>)
    ensures a + b + (c + d + e) == a + b + c + d + e
  {}

  lemma {:induction false} LacksJoined(a: seq<Field>, b: seq<Field>, tag: nat)
    requires Lacks(a, tag) && Lacks(b, tag)
    ensures Lacks(a + b, tag)
  {}

  lemma {:induction false} MessageExtended(start: Bytes, a: seq<Field>, f: Field)
    ensures start + Message(a) + FieldBytes(f) == start + Message(a + [f])
  {
    MessageAppend(a, [f]);
    OneField(f);
    ConcatAssociates(start, Message(a), FieldBytes(f));
  }

  /** An output stream. A sizing stream counts what is written and stores nothing. */
  class OStream {
    const sizing: bool
    var bytes: Bytes
    var bytesWritten: nat
    ghost var content: Bytes

    ghost predicate Valid()
      reads this
    {
      bytesWritten == |content| && bytes == if sizing then [] else content
    }

    constructor (sizing: bool)
      ensures Valid() && content == [] && this.sizing == sizing
    {
      this.sizing := sizing;
      bytes := [];
      bytesWritten := 0;
      content := [];
    }

    method PutBytes(data: Bytes)
      requires Valid()
      modifies this
      ensures Valid() && content == old(content) + data
    {
      if !sizing {
        bytes := bytes + data;
      }
      bytesWritten := bytesWritten + |data|;
      content := content + data;
    }

    method PutVarint(value: int)
      requires Valid()
      modifies this
      ensures Valid() && content == old(content) + Varint(ToUnsigned(value))
    {
      PutBytes(Varint(ToUnsigned(value)));
    }

    method PutTag(wireType: nat, tag: nat)
      requires Valid() && wireType < 8 && tag < 0x1_0000
      modifies this
      ensures Valid() && content == old(content) + Varint(8 * tag + wireType)
    {
      UnsignedSmall(8 * tag + wireType);
      PutVarint(8 * tag + wireType);
    }

    /** A tag and a number. */
    method PutNumber(tag: nat, value: int)
      requires Valid() && tag < 0x1_0000
      modifies this
      ensures Valid() && content == old(content) + FieldBytes(Number(tag, ToUnsigned(value)))
    {
      NumberAssembled(content, tag, ToUnsigned(value));
      PutTag(WT_VARINT, tag);
      PutVarint(value);
    }
  }
}
