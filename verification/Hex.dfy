/** The hex printer and parser of sample_client/config.c. Characters are bytes. */
module Hex {
  import opened Prelude

  type Nibble = v: nat | v < 16

  const NUL: Byte := 0

  /** The printed digit for a value below 16: 0-9 then A-F. */
  function Digit(v: Nibble): Byte {
    if v < 10 then '0' as nat + v else 'A' as nat + (v - 10)
  }

  /** The value of a digit character in either case, or -1. */
  function Value(c: Byte): (v: int)
    ensures -1 <= v < 16
  {
    if '0' as nat <= c <= '9' as nat then c - '0' as nat
    else if 'a' as nat <= c <= 'f' as nat then c - 'a' as nat + 10
    else if 'A' as nat <= c <= 'F' as nat then c - 'A' as nat + 10
    else -1
  }

  function Printed(bin: seq<Byte>): seq<Byte> {
    if bin == [] then [] else [Digit(bin[0] / 16), Digit(bin[0] % 16)] + Printed(bin[1..])
  }

  /** The values of the hex digits before the first NUL, other characters skipped. */
  function Digits(s: seq<Byte>): seq<Nibble> {
    if s == [] || s[0] == NUL then []
    else if Value(s[0]) >= 0 then [Value(s[0])] + Digits(s[1..])
    else Digits(s[1..])
  }

  /** A byte from its high and low half. */
  function Combine(hi: Nibble, lo: Nibble): Byte {
    hi as nat * 16 + lo as nat
  }

  /** Digits paired into bytes, high digit first; an odd last digit is dropped. */
  function Paired(d: seq<Nibble>): (r: seq<Byte>)
    ensures |r| == |d| / 2
  {
    if |d| < 2 then [] else [Combine(d[0], d[1])] + Paired(d[2..])
  }

  lemma {:induction false} PairedAt(d: seq<Nibble>, i: nat)
    requires i < |d| / 2
    ensures Paired(d)[i] == Combine(d[2 * i], d[2 * i + 1])
    decreases i
  {
    if i > 0 {
      PairedAt(d[2..], i - 1);
    }
  }

  /** Fails with -1 and writes nothing when the buffer is short; otherwise prints, and terminates with NUL
      when there is room. */
  method Bin2Hex(result: array<Byte>, bin: seq<Byte>) returns (status: int)
    modifies result
    ensures status == if result.Length < 2 * |bin| then -1 else 0
    ensures status == -1 ==> result[..] == old(result[..])
    ensures status == 0 ==> result[..2 * |bin|] == Printed(bin)
    ensures status == 0 && result.Length > 2 * |bin| ==> result[2 * |bin|] == NUL
    ensures status == 0 ==> forall k | 2 * |bin| < k < result.Length :: result[k] == old(result[k])
  {
    if result.Length < 2 * |bin| {
      return -1;
    }
    var p := 0;
    for i := 0 to |bin|
      invariant p == 2 * i
      invariant result[..p] == Printed(bin[..i])
      invariant forall k | p <= k < result.Length :: result[k] == old(result[k])
    {
      ghost var before := result[..p];
      result[p] := Digit(bin[i] / 16);
      p := p + 1;
      result[p] := Digit(bin[i] % 16);
      p := p + 1;
      assert bin[..i + 1] == bin[..i] + [bin[i]];
      PrintedAppend(bin[..i], [bin[i]]);
      assert result[..p] == before + [Digit(bin[i] / 16), Digit(bin[i] % 16)];
    }
    assert bin[..|bin|] == bin;
    if result.Length > 2 * |bin| {
      result[p] := NUL;
    }
    return 0;
  }

  lemma {:induction false} PrintedAppend(a: seq<Byte>, b: seq<Byte>)
    ensures Printed(a + b) == Printed(a) + Printed(b)
  {
    if a == [] {
      assert a + b == b;
    } else {
      assert (a + b)[1..] == a[1..] + b;
      PrintedAppend(a[1..], b);
    }
  }

  /** Store the k-th digit: a first digit sets the high half of byte j, a second completes it. */
  method TakeDigit(result: array<Byte>, j: nat, k: nat, v: Nibble, ghost all: seq<Nibble>) returns (next: nat)
    requires j == k / 2 < result.Length && k < |all| && all[k] == v
    requires j <= |Paired(all)| && result[..j] == Paired(all)[..j]
    requires k % 2 == 1 ==> result[j] == Combine(all[k - 1], 0)
    modifies result
    ensures next == (k + 1) / 2 && next <= |Paired(all)| && result[..next] == Paired(all)[..next]
    ensures k % 2 == 0 ==> result[j] == Combine(v, 0)
    ensures forall n | j < n < result.Length :: result[n] == old(result[n])
  {
    next := j;
    if k % 2 == 1 {
      PairedAt(all, j);
      result[j] := result[j] + v;
      next := j + 1;
    } else {
      result[j] := 16 * v;
    }
  }

  /** Parses until NUL, the end of the text or a full result, never writing outside the result. An odd last
      digit leaves its high half in the byte after the parsed ones. */
  method Hex2Bin(hexstr: seq<Byte>, result: array<Byte>) returns (j: nat)
    requires result.Length >= 1
    modifies result
    ensures j == Min(result.Length, |Digits(hexstr)| / 2)
    ensures result[..j] == Paired(Digits(hexstr))[..j]
    ensures forall k | j < k < result.Length :: result[k] == old(result[k])
    ensures j < result.Length ==>
              result[j] == if |Digits(hexstr)| % 2 == 1 then Combine(Digits(hexstr)[2 * j], 0) else old(result[j])
  {
    ghost var all := Digits(hexstr);
    var i, k := 0, 0;
    j := 0;
    while i < |hexstr|
      invariant 0 <= i <= |hexstr|
      invariant j == k / 2 < result.Length && k <= |all|
      invariant all[k..] == Digits(hexstr[i..])
      invariant j <= |Paired(all)| && result[..j] == Paired(all)[..j]
      invariant result[j] == if k % 2 == 1 then Combine(all[k - 1], 0) else old(result[j])
      invariant forall n | j < n < result.Length :: result[n] == old(result[n])
    {
      var v := Value(hexstr[i]);
      assert hexstr[i..][0] == hexstr[i] && hexstr[i..][1..] == hexstr[i + 1..];
      if v >= 0 {
        assert all[k..][0] == v && all[k..][1..] == all[k + 1..];
        j := TakeDigit(result, j, k, v, all);
        k := k + 1;
        if j >= result.Length {
          break;
        }
      } else if hexstr[i] == NUL {
        break;
      }
      i := i + 1;
    }
  }

  /** Characters that are neither digits nor NUL may be put anywhere without changing what is parsed. */
  lemma {:induction false} NonHexIgnored(s: seq<Byte>, noise: seq<Byte>, t: seq<Byte>)
    requires forall i | 0 <= i < |noise| :: noise[i] != NUL && Value(noise[i]) < 0
    ensures Digits(s + noise + t) == Digits(s + t)
    decreases |s| + |noise|
  {
    if s != [] {
      assert (s + noise + t)[1..] == s[1..] + noise + t && (s + t)[1..] == s[1..] + t;
      NonHexIgnored(s[1..], noise, t);
    } else if noise != [] {
      assert (s + noise + t)[1..] == s + noise[1..] + t;
      NonHexIgnored(s, noise[1..], t);
    } else {
      assert s + noise + t == s + t;
    }
  }

  function Halves(bin: seq<Byte>): seq<Nibble> {
    if bin == [] then [] else [bin[0] / 16, bin[0] % 16] + Halves(bin[1..])
  }

  lemma {:induction false} PairedHalves(bin: seq<Byte>)
    ensures |Halves(bin)| == 2 * |bin| && Paired(Halves(bin)) == bin
  {
    if bin != [] {
      PairedHalves(bin[1..]);
      PairedCons(bin[0] / 16, bin[0] % 16, Halves(bin[1..]));
      assert bin == [bin[0]] + bin[1..];
    }
  }

  lemma {:induction false} PrintedDigits(bin: seq<Byte>, rest: seq<Byte>)
    requires rest == [] || rest[0] == NUL
    ensures Digits(Printed(bin) + rest) == Halves(bin)
  {
    if bin == [] {
      assert Printed(bin) + rest == rest;
    } else {
      PrintedDigits(bin[1..], rest);
      var hi, lo := bin[0] / 16, bin[0] % 16;
      var tail := Printed(bin[1..]) + rest;
      assert Printed(bin) + rest == [Digit(hi), Digit(lo)] + tail;
      TwoDigits(hi, lo, tail);
    }
  }

  /** Printing and then parsing gives back the bytes, with or without a terminator and whatever follows it. */
  lemma {:induction false} PrintedParses(bin: seq<Byte>, rest: seq<Byte>)
    requires rest == [] || rest[0] == NUL
    ensures |Digits(Printed(bin) + rest)| == 2 * |bin|
    ensures Paired(Digits(Printed(bin) + rest)) == bin
  {
    PrintedDigits(bin, rest);
    PairedHalves(bin);
  }

  lemma {:induction false} TwoDigits(hi: Nibble, lo: Nibble, tail: seq<Byte>)
    ensures Digits([Digit(hi), Digit(lo)] + tail) == [hi, lo] + Digits(tail)
  {
    var text := [Digit(hi), Digit(lo)] + tail;
    assert text[1..] == [Digit(lo)] + tail;
    assert text[1..][1..] == tail;
  }

  lemma {:induction false} PairedCons(hi: Nibble, lo: Nibble, d: seq<Nibble>)
    ensures Paired([hi, lo] + d) == [Combine(hi, lo)] + Paired(d)
  {
    assert ([hi, lo] + d)[2..] == d;
  }

  /** hex2bin undoes bin2hex for every byte buffer. */
  method RoundTrip(bin: seq<Byte>, text: array<Byte>, result: array<Byte>) returns (n: nat)
    requires text != result && text.Length >= 2 * |bin| && result.Length == |bin| >= 1
    modifies text, result
    ensures n == |bin| && result[..] == bin
  {
    var status := Bin2Hex(text, bin);
    ghost var rest := text[2 * |bin|..];
    assert text[..] == Printed(bin) + rest;
    PrintedParses(bin, rest);
    n := Hex2Bin(text[..], result);
    assert result[..] == result[..n];
  }

  /** The hex digits and their values; letters count in either case. */
  lemma {:induction false} DigitValues(c: Byte, v: Nibble)
    ensures Value(c) == v <==>
            (v < 10 && c == '0' as nat + v) || (v >= 10 && (c == 'A' as nat + v - 10 || c == 'a' as nat + v - 10))
    ensures Value(Digit(v)) == v && Digit(v) <= 'F' as nat
  {}
}
