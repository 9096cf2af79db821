/** MAC addresses: byte order and membership of one virtual group (mac_similar of plugins/ap_plugin_basic.c). */
module Macs {
  import opened Prelude

  type Mac = m: seq<Byte> | |m| == 6 witness [0, 0, 0, 0, 0, 0]

  /** The address as a 48-bit number, first byte highest. */
  function MacNumber(m: Mac): nat {
    m[0] as nat * 0x100_0000_0000 + m[1] as nat * 0x1_0000_0000 + m[2] as nat * 0x100_0000
      + m[3] as nat * 0x1_0000 + m[4] as nat * 0x100 + m[5]
  }

  /** The byte order of memcmp, read off the numbers. */
  predicate MacLess(a: Mac, b: Mac) {
    MacNumber(a) < MacNumber(b)
  }

  /** memcmp(a, b) < 0 exactly when the first differing byte is smaller in a. */
  lemma {:induction false} MemcmpIsNumericOrder(a: Mac, b: Mac)
    ensures MacLess(a, b) <==> exists k :: 0 <= k < 6 && a[..k] == b[..k] && a[k] < b[k]
  {
    if a == b {
      assert forall k | 0 <= k < 6 :: a[k] == b[k];
    } else {
      var k := FirstDifference(a, b);
      assert MacLess(a, b) <==> a[k] < b[k];
      if i :| 0 <= i < 6 && a[..i] == b[..i] && a[i] < b[i] {
        assert k < i ==> a[..i][k] == b[..i][k];
      }
    }
  }

  lemma {:induction false} FirstDifference(a: Mac, b: Mac) returns (k: nat)
    requires a != b
    ensures k < 6 && a[..k] == b[..k] && a[k] != b[k]
    ensures forall i | 0 <= i < k :: a[i] == b[i]
  {
    k := 0;
    while k < 5 && a[k] == b[k]
      invariant 0 <= k <= 5 && forall i | 0 <= i < k :: a[i] == b[i]
    {
      k := k + 1;
    }
  }

  lemma {:induction false} MacNumberInjective(a: Mac, b: Mac)
    requires MacNumber(a) == MacNumber(b)
    ensures a == b
  {
    if a != b {
      var k := FirstDifference(a, b);
    }
  }

  /** The n-th hex digit, high half of a byte first. */
  function Nibble(m: Mac, n: nat): (v: nat)
    requires n < 12
    ensures v < 16
  {
    if n % 2 == 0 then m[n / 2] / 16 else m[n / 2] % 16
  }

  /** The "locally administered" bit. */
  function LocalBit(m: Mac): nat {
    m[0] / 2 % 2
  }

  /** How many of the first n hex digits differ. */
  function DifferingDigits(a: Mac, b: Mac, n: nat): nat
    requires n <= 12
  {
    if n == 0 then 0 else DifferingDigits(a, b, n - 1) + if Nibble(a, n - 1) != Nibble(b, n - 1) then 1 else 0
  }

  /** Two addresses belong to one virtual group: they agree on the local bit and in all hex digits but at most one. */
  predicate Similar(a: Mac, b: Mac) {
    LocalBit(a) == LocalBit(b) && DifferingDigits(a, b, 2 * |a|) <= 1
  }

  /** Counts differing digits and gives up at the second. Zero means not similar; otherwise the sign tells
      which address is the parent (the lower one), equal addresses answering 1. */
  method MacSimilar(a: Mac, b: Mac) returns (result: int, pn: nat)
    ensures result != 0 <==> Similar(a, b)
    ensures a == b ==> result == 1
    ensures result < 0 <==> Similar(a, b) && MacLess(a, b)
    ensures result != 0 && a != b ==> pn < 12 && Nibble(a, pn) != Nibble(b, pn)
  {
    var numDiff, idxDiff := 0, 0;
    result := 1;
    for n := 0 to 12
      invariant numDiff == DifferingDigits(a, b, n) <= 1
      invariant numDiff == 0 ==> result == 1 && forall k | 0 <= k < n :: Nibble(a, k) == Nibble(b, k)
      invariant numDiff == 1 ==>
                  && idxDiff < n && Nibble(a, idxDiff) != Nibble(b, idxDiff)
                  && result == a[idxDiff / 2] as int - b[idxDiff / 2] as int
                  && forall k | 0 <= k < n && k != idxDiff :: Nibble(a, k) == Nibble(b, k)
    {
      if Nibble(a, n) != Nibble(b, n) {
        numDiff := numDiff + 1;
        if numDiff > 1 {
          DifferingDigitsGrow(a, b, n + 1, 12);
          return 0, idxDiff;
        }
        idxDiff := n;
        result := a[n / 2] as int - b[n / 2] as int;
      }
    }
    if LocalBit(a) != LocalBit(b) {
      return 0, idxDiff;
    }
    pn := idxDiff;
    if numDiff == 0 {
      SameDigits(a, b);
    } else {
      OneDigit(a, b, idxDiff);
    }
  }

  lemma {:induction false} DifferingDigitsGrow(a: Mac, b: Mac, n: nat, k: nat)
    requires n <= k <= 12
    ensures DifferingDigits(a, b, n) <= DifferingDigits(a, b, k)
    decreases k
  {
    if n < k {
      DifferingDigitsGrow(a, b, n, k - 1);
    }
  }

  lemma {:induction false} SameByte(a: Mac, b: Mac, k: nat)
    requires k < 6 && Nibble(a, 2 * k) == Nibble(b, 2 * k) && Nibble(a, 2 * k + 1) == Nibble(b, 2 * k + 1)
    ensures a[k] == b[k]
  {}

  lemma {:induction false} SameDigits(a: Mac, b: Mac)
    requires forall n | 0 <= n < 12 :: Nibble(a, n) == Nibble(b, n)
    ensures a == b
  {
    forall k | 0 <= k < 6 ensures a[k] == b[k] {
      SameByte(a, b, k);
    }
  }

  /** When exactly one digit differs, the byte holding it decides the byte order. */
  lemma {:induction false} OneDigit(a: Mac, b: Mac, d: nat)
    requires d < 12 && Nibble(a, d) != Nibble(b, d)
    requires forall n | 0 <= n < 12 && n != d :: Nibble(a, n) == Nibble(b, n)
    ensures a[d / 2] != b[d / 2]
    ensures MacLess(a, b) <==> a[d / 2] < b[d / 2]
    ensures a != b
  {
    var k := d / 2;
    forall i | 0 <= i < 6 && i != k ensures a[i] == b[i] {
      SameByte(a, b, i);
    }
  }

  lemma {:induction false} DifferingDigitsSymmetric(a: Mac, b: Mac, n: nat)
    requires n <= 12
    ensures DifferingDigits(a, b, n) == DifferingDigits(b, a, n)
    ensures DifferingDigits(a, a, n) == 0
  {
    if n > 0 {
      DifferingDigitsSymmetric(a, b, n - 1);
    }
  }

  /** Membership of one virtual group does not depend on the order of the arguments, and every address is
      similar to itself. It is not transitive, so groups are not equivalence classes. */
  lemma {:induction false} SimilarSymmetric(a: Mac, b: Mac)
    ensures Similar(a, b) <==> Similar(b, a)
    ensures Similar(a, a)
  {
    DifferingDigitsSymmetric(a, b, 12);
  }

  lemma {:induction false} OneDifference(a: Mac, b: Mac, d: nat, n: nat)
    requires n <= 12 && forall k | 0 <= k < n && k != d :: Nibble(a, k) == Nibble(b, k)
    ensures DifferingDigits(a, b, n) <= if d < n then 1 else 0
  {
    if n > 0 {
      OneDifference(a, b, d, n - 1);
    }
  }

  lemma {:induction false} TwoDifferences(a: Mac, b: Mac, d: nat, e: nat, n: nat)
    requires d < e < n <= 12 && Nibble(a, d) != Nibble(b, d) && Nibble(a, e) != Nibble(b, e)
    ensures DifferingDigits(a, b, n) >= 2
  {
    if e < n - 1 {
      TwoDifferences(a, b, d, e, n - 1);
    } else {
      DifferingDigitsGrow(a, b, d + 1, n - 1);
    }
  }

  lemma {:induction false} SimilarNotTransitive()
    ensures exists a: Mac, b: Mac, c: Mac :: Similar(a, b) && Similar(b, c) && !Similar(a, c)
  {
    var a: Mac := [4, 0, 0, 0, 0, 0];
    var b: Mac := [4, 0, 0, 0, 0, 1];
    var c: Mac := [4, 0, 0, 0, 1, 1];
    OneDifference(a, b, 11, 12);
    OneDifference(b, c, 9, 12);
    TwoDifferences(a, c, 9, 11, 12);
    assert Similar(a, b) && Similar(b, c) && !Similar(a, c);
  }

  /** Similarity without counting: the same local bit, and of any two digits at least one agrees. */
  lemma {:induction false} SimilarIff(a: Mac, b: Mac)
    ensures Similar(a, b) <==>
            && a[0] / 2 % 2 == b[0] / 2 % 2
            && forall d, e | 0 <= d < e < 12 :: Nibble(a, d) == Nibble(b, d) || Nibble(a, e) == Nibble(b, e)
  {
    if d, e :| 0 <= d < e < 12 && Nibble(a, d) != Nibble(b, d) && Nibble(a, e) != Nibble(b, e) {
      TwoDifferences(a, b, d, e, 12);
    } else if d :| 0 <= d < 12 && Nibble(a, d) != Nibble(b, d) {
      OneDifference(a, b, d, 12);
    } else {
      OneDifference(a, b, 0, 12);
    }
  }
}
