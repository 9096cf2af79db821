/** The header checksum of libel/crc32.c: the CRC-32 of section 8 of RFC 1952, one bit at a time.
    A 32-bit register is a number below 2^32; XOR is defined digit by digit. */
module Crc32 {
  import opened Prelude

  type Word = w: nat | w < 0x1_0000_0000

  const POLYNOMIAL: Word := 0xEDB8_8320
  const SKY_MAGIC: Word := 0xD196_7806

  function Xor(x: nat, y: nat): nat
    decreases x + y
  {
    if x + y == 0 then 0 else (if x % 2 != y % 2 then 1 else 0) + 2 * Xor(x / 2, y / 2)
  }

  /** One division step by the (reflected) polynomial over GF(2). */
  function BitStep(x: nat): nat {
    if x % 2 == 1 then Xor(x / 2, POLYNOMIAL) else x / 2
  }

  function Steps(x: nat, n: nat): nat
    decreases n
  {
    if n == 0 then x else Steps(BitStep(x), n - 1)
  }

  /** The register after a whole message has been shifted in, eight steps a byte. */
  function Shift(c: nat, m: seq<Byte>): nat
    decreases m
  {
    if m == [] then c else Shift(Steps(Xor(c, m[0]), 8), m[1..])
  }

  function Checksum(m: seq<Byte>): (r: Word)
  {
    ShiftBound(0xFFFF_FFFF, m);
    0xFFFF_FFFF - Shift(0xFFFF_FFFF, m)
  }

  /** The byte loop around an eight-step bit loop. The mask is all ones or all zeros. */
  method SkyCrc32(message: seq<Byte>) returns (r: Word)
    ensures r == Checksum(message)
  {
    var i := 0;
    var crc := 0xFFFF_FFFF;
    while i < |message|
      invariant 0 <= i <= |message|
      invariant crc == Shift(0xFFFF_FFFF, message[..i])
    {
      crc := Xor(crc, message[i]);
      ghost var mixed := crc;
      var j := 7;
      while j >= 0
        invariant -1 <= j <= 7
        invariant Steps(crc, j + 1) == Steps(mixed, 8)
      {
        XorZero(crc / 2);
        crc := Xor(crc / 2, if crc % 2 == 1 then POLYNOMIAL else 0);
        j := j - 1;
      }
      assert message[..i + 1] == message[..i] + [message[i]];
      ShiftAppend(0xFFFF_FFFF, message[..i], [message[i]]);
      i := i + 1;
    }
    assert message[..i] == message;
    ShiftBound(0xFFFF_FFFF, message);
    return 0xFFFF_FFFF - crc;
  }

  // ----- XOR -----

  lemma {:induction false} XorZero(x: nat)
    ensures Xor(x, 0) == x && Xor(0, x) == x && Xor(x, x) == 0
  {
    if x > 0 {
      XorZero(x / 2);
    }
  }

  lemma {:induction false} XorDigits(x: nat, y: nat)
    ensures Xor(x, y) % 2 == 1 <==> x % 2 != y % 2
    ensures Xor(x, y) / 2 == Xor(x / 2, y / 2)
  {}

  lemma {:induction false} SameDigits(u: nat, v: nat)
    requires u % 2 == v % 2 && u / 2 == v / 2
    ensures u == v
  {}

  lemma {:induction false} XorAssociative(x: nat, y: nat, z: nat)
    ensures Xor(Xor(x, y), z) == Xor(x, Xor(y, z))
    decreases x + y + z
  {
    if x + y + z > 0 {
      XorAssociative(x / 2, y / 2, z / 2);
      AssociativeParity(x, y, z);
      AssociativeRest(x, y, z);
      SameDigits(Xor(Xor(x, y), z), Xor(x, Xor(y, z)));
    }
  }

  lemma {:induction false} AssociativeParity(x: nat, y: nat, z: nat)
    ensures Xor(Xor(x, y), z) % 2 == Xor(x, Xor(y, z)) % 2
  {
    XorDigits(x, y);
    XorDigits(y, z);
    XorDigits(Xor(x, y), z);
    XorDigits(x, Xor(y, z));
  }

  lemma {:induction false} AssociativeRest(x: nat, y: nat, z: nat)
    ensures Xor(Xor(x, y), z) / 2 == Xor(Xor(x / 2, y / 2), z / 2)
    ensures Xor(x, Xor(y, z)) / 2 == Xor(x / 2, Xor(y / 2, z / 2))
  {
    XorDigits(x, y);
    XorDigits(y, z);
    XorDigits(Xor(x, y), z);
    XorDigits(x, Xor(y, z));
  }

  lemma {:induction false} XorCommutes(x: nat, y: nat)
    ensures Xor(x, y) == Xor(y, x)
    decreases x + y
  {
    if x + y > 0 {
      XorCommutes(x / 2, y / 2);
    }
  }

  /** XOR-ing the same value twice cancels, so XOR is injective in either argument. */
  lemma {:induction false} XorCancels(x: nat, y: nat)
    ensures Xor(x, Xor(x, y)) == y && Xor(Xor(y, x), x) == y
  {
    XorAssociative(x, x, y);
    XorAssociative(y, x, x);
    XorZero(x);
    XorZero(y);
  }

  function Pow2(n: nat): (p: nat)
    ensures p >= 1
  {
    if n == 0 then 1 else 2 * Pow2(n - 1)
  }

  lemma {:induction false} XorBound(x: nat, y: nat, n: nat)
    requires x < Pow2(n) && y < Pow2(n)
    ensures Xor(x, y) < Pow2(n)
    decreases n
  {
    if n > 0 {
      XorBound(x / 2, y / 2, n - 1);
    }
  }

  // ----- a step is linear over XOR and loses nothing -----

  lemma {:induction false} XorSwap(a: nat, p: nat, b: nat)
    ensures Xor(Xor(a, p), b) == Xor(Xor(a, b), p)
    ensures Xor(a, Xor(b, p)) == Xor(Xor(a, b), p)
    ensures Xor(Xor(a, p), Xor(b, p)) == Xor(a, b)
  {
    XorAssociative(a, p, b);
    XorCommutes(p, b);
    XorAssociative(a, b, p);
    XorAssociative(a, p, Xor(b, p));
    XorCommutes(b, p);
    XorCancels(p, b);
  }

  lemma {:induction false} BitStepLinear(x: nat, y: nat)
    ensures BitStep(Xor(x, y)) == Xor(BitStep(x), BitStep(y))
  {
    var a, b := x / 2, y / 2;
    XorDigits(x, y);
    XorSwap(a, POLYNOMIAL, b);
    BitStepDigits(x, a);
    BitStepDigits(y, b);
    BitStepDigits(Xor(x, y), Xor(a, b));
  }

  lemma {:induction false} BitStepDigits(x: nat, a: nat)
    requires a == x / 2
    ensures BitStep(x) == if x % 2 == 1 then Xor(a, POLYNOMIAL) else a
  {}

  lemma {:induction false} Pow32()
    ensures Pow2(8) == 0x100 && Pow2(32) == 0x1_0000_0000
  {
    assert Pow2(8) == 0x100;
    assert Pow2(16) == 0x1_0000;
    assert Pow2(24) == 0x100_0000;
  }

  lemma {:induction false} BitStepBound(x: nat)
    requires x < 0x1_0000_0000
    ensures BitStep(x) < 0x1_0000_0000
  {
    Pow32();
    XorBound(x / 2, POLYNOMIAL, 32);
  }

  /** The polynomial has its top bit set, so no register but zero steps to zero. */
  lemma {:induction false} BitStepKernel(x: nat)
    requires x < 0x1_0000_0000 && BitStep(x) == 0
    ensures x == 0
  {
    if x % 2 == 1 {
      XorCancels(x / 2, POLYNOMIAL);
      XorZero(x / 2);
      assert false;
    }
  }

  lemma {:induction false} StepsBound(x: nat, n: nat)
    requires x < 0x1_0000_0000
    ensures Steps(x, n) < 0x1_0000_0000
    decreases n
  {
    if n > 0 {
      BitStepBound(x);
      StepsBound(BitStep(x), n - 1);
    }
  }

  lemma {:induction false} ShiftBound(c: nat, m: seq<Byte>)
    requires c < 0x1_0000_0000
    ensures Shift(c, m) < 0x1_0000_0000
    decreases m
  {
    if m != [] {
      Pow32();
      XorBound(c, m[0], 32);
      StepsBound(Xor(c, m[0]), 8);
      ShiftBound(Steps(Xor(c, m[0]), 8), m[1..]);
    }
  }

  lemma {:induction false} StepsLinear(x: nat, y: nat, n: nat)
    ensures Steps(Xor(x, y), n) == Xor(Steps(x, n), Steps(y, n))
    decreases n
  {
    if n > 0 {
      BitStepLinear(x, y);
      StepsLinear(BitStep(x), BitStep(y), n - 1);
    }
  }

  lemma {:induction false} StepsKernel(x: nat, n: nat)
    requires x < 0x1_0000_0000 && Steps(x, n) == 0
    ensures x == 0
    decreases n
  {
    if n > 0 {
      BitStepBound(x);
      StepsKernel(BitStep(x), n - 1);
      BitStepKernel(x);
    }
  }

  /** Any number of bit steps is injective on 32-bit registers. */
  lemma {:induction false} StepsInjective(x: Word, y: Word, n: nat)
    requires Steps(x, n) == Steps(y, n)
    ensures x == y
  {
    StepsLinear(x, y, n);
    XorZero(Steps(x, n));
    Pow32();
    XorBound(x, y, 32);
    StepsKernel(Xor(x, y), n);
    XorCancels(x, y);
    XorZero(x);
  }

  lemma {:induction false} StepsAdd(x: nat, m: nat, n: nat)
    ensures Steps(x, m + n) == Steps(Steps(x, m), n)
    decreases m
  {
    if m > 0 {
      StepsAdd(BitStep(x), m - 1, n);
    }
  }

  lemma {:induction false} ShiftAppend(c: nat, a: seq<Byte>, b: seq<Byte>)
    ensures Shift(c, a + b) == Shift(Shift(c, a), b)
    decreases a
  {
    if a == [] {
      assert a + b == b;
    } else {
      assert (a + b)[1..] == a[1..] + b;
      ShiftAppend(Steps(Xor(c, a[0]), 8), a[1..], b);
    }
  }

  lemma {:induction false} ShiftInjective(c: Word, d: Word, m: seq<Byte>)
    requires c != d
    ensures Shift(c, m) != Shift(d, m)
    decreases m
  {
    if m != [] {
      var b := m[0];
      Pow32();
      XorBound(c, b, 32);
      XorBound(d, b, 32);
      XorCancels(b, c);
      XorCancels(b, d);
      StepsBound(Xor(c, b), 8);
      StepsBound(Xor(d, b), 8);
      if Steps(Xor(c, b), 8) == Steps(Xor(d, b), 8) {
        StepsInjective(Xor(c, b), Xor(d, b), 8);
        assert false;
      }
      ShiftInjective(Steps(Xor(c, b), 8), Steps(Xor(d, b), 8), m[1..]);
    }
  }

  // ----- a few bytes are one number, first byte lowest -----

  function Number(m: seq<Byte>): nat {
    if m == [] then 0 else m[0] + 0x100 * Number(m[1..])
  }

  lemma {:induction false} NumberInjective(m: seq<Byte>, k: seq<Byte>)
    requires |m| == |k| && Number(m) == Number(k)
    ensures m == k
  {
    if m != [] {
      assert Number(m) % 0x100 == m[0] && Number(k) % 0x100 == k[0];
      NumberInjective(m[1..], k[1..]);
      assert m == [m[0]] + m[1..] && k == [k[0]] + k[1..];
    }
  }

  /** XOR with a multiple of 2^n above a value below 2^n is addition. */
  lemma {:induction false} XorDisjoint(b: nat, w: nat, n: nat)
    requires b < Pow2(n)
    ensures Xor(b, Pow2(n) * w) == b + Pow2(n) * w
    decreases n
  {
    if n == 0 {
      XorZero(w);
    } else {
      XorDisjoint(b / 2, w, n - 1);
      Doubled(n, w);
      XorEven(b, Pow2(n - 1) * w);
    }
  }

  lemma {:induction false} Doubled(n: nat, w: nat)
    requires n > 0
    ensures Pow2(n) * w == 2 * (Pow2(n - 1) * w) && Pow2(n - 1) * w >= 0
  {}

  lemma {:induction false} XorEven(b: nat, t: nat)
    ensures Xor(b, 2 * t) == b % 2 + 2 * Xor(b / 2, t)
  {
    assert 2 * t / 2 == t && 2 * t % 2 == 0;
  }

  /** n steps only move a number whose low n bits are clear. */
  lemma {:induction false} StepsShiftBack(w: nat, n: nat)
    ensures Steps(Pow2(n) * w, n) == w
    decreases n
  {
    if n > 0 {
      Doubled(n, w);
      assert BitStep(2 * (Pow2(n - 1) * w)) == Pow2(n - 1) * w;
      StepsShiftBack(w, n - 1);
    }
  }

  /** Stepping n times commutes with mixing in later input v that becomes w by then. */
  lemma {:induction false} MixLater(c: nat, b: nat, v: nat, w: nat, n: nat)
    requires Steps(v, n) == w && Xor(b, v) == b + v
    ensures Xor(Steps(Xor(c, b), n), w) == Steps(Xor(c, b + v), n)
  {
    StepsLinear(Xor(c, b), v, n);
    XorAssociative(c, b, v);
  }

  lemma {:induction false} ByteShiftBack(w: nat)
    ensures Steps(0x100 * w, 8) == w
  {
    Pow32();
    StepsShiftBack(w, 8);
  }

  lemma {:induction false} ByteDisjoint(b: Byte, w: nat)
    ensures Xor(b, 0x100 * w) == b + 0x100 * w
  {
    Pow32();
    XorDisjoint(b, w, 8);
  }

  lemma {:induction false} MixByte(c: nat, b: Byte, w: nat)
    ensures Xor(Steps(Xor(c, b), 8), w) == Steps(Xor(c, b + 0x100 * w), 8)
  {
    ByteShiftBack(w);
    ByteDisjoint(b, w);
    MixLater(c, b, 0x100 * w, w, 8);
  }

  lemma {:induction false} ByteThenRest(c: nat, b: Byte, w: nat, n: nat)
    ensures Steps(Xor(c, b + 0x100 * w), 8 * (n + 1)) == Steps(Xor(Steps(Xor(c, b), 8), w), 8 * n)
  {
    MixByte(c, b, w);
    StepsAdd(Xor(c, b + 0x100 * w), 8, 8 * n);
  }

  /** Shifting in bytes is one XOR with their number followed by plain steps. */
  lemma {:induction false} ShiftIsNumber(c: nat, m: seq<Byte>)
    ensures Shift(c, m) == Steps(Xor(c, Number(m)), 8 * |m|)
    decreases m
  {
    if m == [] {
      XorZero(c);
    } else {
      var b, rest := m[0], m[1..];
      var w, n := Number(rest), |rest|;
      assert Number(m) == b + 0x100 * w && |m| == n + 1;
      ByteThenRest(c, b, w, n);
      ShiftIsNumber(Steps(Xor(c, b), 8), rest);
    }
  }

  lemma {:induction false} WindowInjective(c: Word, a: seq<Byte>, b: seq<Byte>)
    requires |a| == |b| <= 4 && a != b
    ensures Shift(c, a) != Shift(c, b)
  {
    ShiftIsNumber(c, a);
    ShiftIsNumber(c, b);
    NumberBound(a);
    NumberBound(b);
    Pow32();
    XorBound(c, Number(a), 32);
    XorBound(c, Number(b), 32);
    if Shift(c, a) == Shift(c, b) {
      StepsInjective(Xor(c, Number(a)), Xor(c, Number(b)), 8 * |a|);
      XorCancels(c, Number(a));
      XorCancels(c, Number(b));
      NumberInjective(a, b);
      assert false;
    }
  }

  lemma {:induction false} NumberBound(m: seq<Byte>)
    requires |m| <= 4
    ensures Number(m) < 0x1_0000_0000
    ensures |m| <= 3 ==> Number(m) < 0x100_0000
    ensures |m| <= 2 ==> Number(m) < 0x1_0000
    ensures |m| <= 1 ==> Number(m) < 0x100
    ensures |m| == 0 ==> Number(m) == 0
  {
    if m != [] {
      NumberBound(m[1..]);
    }
  }

  /** Two messages of one length that differ only inside four consecutive bytes have different checksums. */
  lemma {:induction false} ChecksumDetectsBurst(m1: seq<Byte>, m2: seq<Byte>, p: nat, w: nat)
    requires |m1| == |m2| && w <= 4 && p + w <= |m1|
    requires m1[..p] == m2[..p] && m1[p + w..] == m2[p + w..]
    requires m1 != m2
    ensures Checksum(m1) != Checksum(m2)
  {
    var c0 := 0xFFFF_FFFF;
    var pre, post := m1[..p], m1[p + w..];
    var a, b := m1[p..p + w], m2[p..p + w];
    assert m1 == pre + (a + post) && m2 == pre + (b + post);
    ShiftAppend(c0, pre, a + post);
    ShiftAppend(c0, pre, b + post);
    ShiftBound(c0, pre);
    var c := Shift(c0, pre);
    ShiftAppend(c, a, post);
    ShiftAppend(c, b, post);
    ShiftBound(c, a);
    ShiftBound(c, b);
    WindowInjective(c, a, b);
    ShiftInjective(Shift(c, a), Shift(c, b), post);
  }

  // ----- the context header -----

  datatype Header = Header(magic: Word, size: Word, time: Word, crc32: Word)

  /** The bytes of a word in memory, lowest first. */
  function Bytes(w: Word): (r: seq<Byte>)
    ensures |r| == 4 && Number(r) == w
  {
    var r: seq<Byte> := [w % 0x100, w / 0x100 % 0x100, w / 0x1_0000 % 0x100, w / 0x100_0000];
    assert Number(r) == w by {
      assert Number(r[1..][1..][1..]) == w / 0x100_0000;
      assert Number(r[1..][1..]) == w / 0x1_0000;
      assert Number(r[1..]) == w / 0x100;
    }
    r
  }

  function HeaderBytes(h: Header): (r: seq<Byte>)
    ensures |r| == 12
  {
    Bytes(h.magic) + Bytes(h.size) + Bytes(h.time)
  }

  predicate HeaderValid(h: Header) {
    h.magic == SKY_MAGIC && h.crc32 == Checksum(HeaderBytes(h))
  }

  lemma {:induction false} BytesDiffer(u: Word, v: Word)
    requires u != v
    ensures Bytes(u) != Bytes(v)
  {}

  lemma {:induction false} HeaderSplit(a: seq<Byte>, b: seq<Byte>, c: seq<Byte>)
    ensures a + b + c == [] + a + (b + c) && a + b + c == a + b + c + []
  {}

  /** Damage to one header word never passes validation, whichever word it is. */
  lemma {:induction false} OneWordDamageDetected(h: Header, g: Header)
    requires HeaderValid(h) && g.crc32 == h.crc32
    requires || (g.magic != h.magic && g.size == h.size && g.time == h.time)
             || (g.magic == h.magic && g.size != h.size && g.time == h.time)
             || (g.magic == h.magic && g.size == h.size && g.time != h.time)
    ensures g.crc32 != Checksum(HeaderBytes(g)) && !HeaderValid(g)
  {
    if g.magic != h.magic {
      BytesDiffer(g.magic, h.magic);
      WindowDamage([], Bytes(h.magic), Bytes(g.magic), Bytes(h.size) + Bytes(h.time));
      HeaderSplit(Bytes(h.magic), Bytes(h.size), Bytes(h.time));
      HeaderSplit(Bytes(g.magic), Bytes(g.size), Bytes(g.time));
    } else if g.size != h.size {
      BytesDiffer(g.size, h.size);
      WindowDamage(Bytes(h.magic), Bytes(h.size), Bytes(g.size), Bytes(h.time));
    } else {
      BytesDiffer(g.time, h.time);
      WindowDamage(Bytes(h.magic) + Bytes(h.size), Bytes(h.time), Bytes(g.time), []);
      HeaderSplit(Bytes(h.magic), Bytes(h.size), Bytes(h.time));
      HeaderSplit(Bytes(g.magic), Bytes(g.size), Bytes(g.time));
    }
  }

  lemma {:induction false} WindowDamage(pre: seq<Byte>, a: seq<Byte>, b: seq<Byte>, post: seq<Byte>)
    requires |a| == |b| <= 4 && a != b
    ensures Checksum(pre + a + post) != Checksum(pre + b + post)
  {
    var m1, m2 := pre + a + post, pre + b + post;
    assert m1[|pre|..|pre| + |a|] == a && m2[|pre|..|pre| + |a|] == b;
    assert m1[..|pre|] == pre == m2[..|pre|];
    assert m1[|pre| + |a|..] == post == m2[|pre| + |a|..];
    ChecksumDetectsBurst(m1, m2, |pre|, |a|);
  }

  /** A header written with the magic number and its checksum is valid, and no header with another magic number is. */
  lemma {:induction false} WrittenHeaderValid(h: Header)
    ensures h.magic == 0xD196_7806 && h.crc32 == Checksum(HeaderBytes(h)) ==> HeaderValid(h)
    ensures HeaderValid(h) ==> h.magic == 0xD196_7806
  {}

  /** The checksum of no bytes, and the last power of two in the table of section 8 of RFC 1952. */
  lemma {:induction false} KnownValues()
    ensures Checksum([]) == 0
    ensures Steps(0x80, 8) == 0xEDB8_8320
  {
    XorZero(0xEDB8_8320);
    assert Pow2(7) == 0x80;
    StepsShiftBack(1, 7);
    StepsAdd(0x80, 7, 1);
    assert Steps(1, 1) == Steps(BitStep(1), 0);
  }
}
