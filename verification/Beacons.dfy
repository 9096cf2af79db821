/** Scanned beacons: validation (libel/utilities.c), the comparisons of the two basic plugins and the
    insertion order of libel/beacons.c. */
module Beacons {
  import opened Macs
  import opened Prelude

  const TOTAL_BEACONS: nat := 28
  const MAX_AP_BEACONS: nat := 20

  const UNKNOWN_ID1: int := 0xFFFF
  const UNKNOWN_ID2: int := 0xFFFF
  const UNKNOWN_ID3: int := -1
  const UNKNOWN_ID4: int := -1
  const UNKNOWN_ID5: int := -1
  const UNKNOWN_ID6: int := -1
  const UNKNOWN_TA: int := -1

  type Uint16 = x: int | 0 <= x < 0x1_0000
  type Int16 = x: int | -0x8000 <= x < 0x8000
  type Uint32 = x: int | 0 <= x < 0x1_0000_0000
  type Int32 = x: int | -0x8000_0000 <= x < 0x8000_0000
  type Int64 = x: int | -0x8000_0000_0000_0000 <= x < 0x8000_0000_0000_0000

  /** Cell technologies, best first. */
  datatype CellKind = NR | LTE | UMTS | NBIOT | CDMA | GSM

  datatype Header = Header(age: Uint32, rssi: Int16, connected: bool)
  datatype ApData = ApData(mac: Mac, freq: Uint32, used: bool)
  datatype CellData = CellData(kind: CellKind, id1: Uint16, id2: Uint16, id3: Int32, id4: Int64, id5: Int16,
                               freq: Int32, ta: Int32)

  /** A beacon; Other stands for the types the library does not accept. */
  datatype Beacon = Ap(h: Header, ap: ApData) | Cell(h: Header, cell: CellData) | Other(h: Header)

  function KindCode(kind: CellKind): (c: nat)
    ensures 3 <= c <= 8
  {
    match kind
    case NR => 3
    case LTE => 4
    case UMTS => 5
    case NBIOT => 6
    case CDMA => 7
    case GSM => 8
  }

  function TypeCode(b: Beacon): nat {
    match b
    case Ap(_, _) => 1
    case Other(_) => 2
    case Cell(_, cell) => KindCode(cell.kind)
  }

  /** A cell without its primary identity, reported as a neighbour measurement. */
  predicate IsNmr(b: Beacon) {
    b.Cell? && b.cell.id2 == UNKNOWN_ID2
  }

  function EffectiveRssi(rssi: int): int {
    if rssi == -1 then -127 else rssi
  }

  // ----- validation -----

  predicate InRange(x: int, unknown: int, low: int, high: int) {
    x == unknown || low <= x <= high
  }

  predicate AtMost(x: int, unknown: int, high: int) {
    x == unknown || x <= high
  }

  /** The primary identifiers are given together or not at all. */
  predicate PrimaryComplete(c: CellData) {
    (c.id1 == UNKNOWN_ID1) == (c.id2 == UNKNOWN_ID2) == (c.id4 == UNKNOWN_ID4)
  }

  function WeakestRssi(kind: CellKind): Int16 {
    match kind
    case NR => -140
    case LTE => -140
    case UMTS => -120
    case NBIOT => -156
    case CDMA => -140
    case GSM => -128
  }

  function StrongestRssi(kind: CellKind): Int16 {
    match kind
    case NR => -40
    case LTE => -40
    case UMTS => -20
    case NBIOT => -44
    case CDMA => -49
    case GSM => -32
  }

  predicate CellFieldsValid(c: CellData)
  {
    match c.kind
    case LTE =>
      && PrimaryComplete(c)
      && InRange(c.id1, UNKNOWN_ID1, 200, 799) && AtMost(c.id2, UNKNOWN_ID2, 999)
      && InRange(c.id3, UNKNOWN_ID3, 1, 65535) && InRange(c.id4, UNKNOWN_ID4, 0, 268435455)
      && AtMost(c.id5, UNKNOWN_ID5, 503) && AtMost(c.freq, UNKNOWN_ID6, 262143)
      && InRange(c.ta, UNKNOWN_TA, 0, 7690)
    case NBIOT =>
      && PrimaryComplete(c)
      && InRange(c.id1, UNKNOWN_ID1, 200, 799) && AtMost(c.id2, UNKNOWN_ID2, 999)
      && InRange(c.id3, UNKNOWN_ID3, 1, 65535) && InRange(c.id4, UNKNOWN_ID4, 0, 268435455)
      && InRange(c.id5, UNKNOWN_ID5, 0, 503) && InRange(c.freq, UNKNOWN_ID6, 0, 262143)
    case GSM =>
      && PrimaryComplete(c) && ((c.id1 == UNKNOWN_ID1) == (c.id3 == UNKNOWN_ID3))
      && InRange(c.id1, UNKNOWN_ID1, 200, 799) && AtMost(c.id2, UNKNOWN_ID2, 999)
      && InRange(c.id5, UNKNOWN_ID5, 0, 63) && InRange(c.freq, UNKNOWN_ID6, 1, 1023)
      && InRange(c.ta, UNKNOWN_TA, 0, 63)
    case UMTS =>
      && PrimaryComplete(c)
      && InRange(c.id1, UNKNOWN_ID1, 200, 799) && AtMost(c.id2, UNKNOWN_ID2, 999)
      && InRange(c.id4, UNKNOWN_ID4, 0, 268435455)
      && AtMost(c.id5, UNKNOWN_ID5, 511) && InRange(c.freq, UNKNOWN_ID6, 412, 262143)
    case CDMA =>
      && c.id2 != UNKNOWN_ID2 && c.id3 != UNKNOWN_ID3 && c.id4 != UNKNOWN_ID4
      && c.id2 <= 32767 && 0 <= c.id3 <= 65535 && 0 <= c.id4 <= 65535
    case NR =>
      && PrimaryComplete(c)
      && InRange(c.id1, UNKNOWN_ID1, 200, 799) && AtMost(c.id2, UNKNOWN_ID2, 999)
      && InRange(c.id4, UNKNOWN_ID4, 0, 68719476735)
      && InRange(c.id5, UNKNOWN_ID5, 0, 107) && InRange(c.freq, UNKNOWN_ID6, 0, 3279165)
      && InRange(c.ta, UNKNOWN_TA, 0, 3846)
  }

  predicate MacValid(m: Mac) {
    m != [0, 0, 0, 0, 0, 0] && m != [0xFF, 0xFF, 0xFF, 0xFF, 0xFF, 0xFF]
  }

  /** validate_beacon: rejects impossible beacons and rewrites out-of-range readings to "unknown". */
  function Validate(b: Beacon): Option<Beacon> {
    match b
    case Ap(h, ap) =>
      if MacValid(ap.mac) then
        Some(Ap(h.(rssi := if h.rssi > -10 || h.rssi < -127 then -1 else h.rssi),
                ap.(freq := if ap.freq < 2400 || ap.freq > 6000 then 0 else ap.freq)))
      else None
    case Cell(h, c) =>
      if CellFieldsValid(c) then
        var h' := h.(rssi := if h.rssi > StrongestRssi(c.kind) || h.rssi < WeakestRssi(c.kind) then -1 else h.rssi);
        Some(if IsNmr(b) then Cell(h'.(connected := false), c.(ta := UNKNOWN_TA)) else Cell(h', c))
      else None
    case Other(_) => None
  }

  /** A beacon as it may stand in a list: validation accepts it unchanged. Ages stay below 2^31 seconds. */
  predicate ValidBeacon(b: Beacon) {
    Validate(b) == Some(b) && b.h.age < 0x8000_0000
  }

  /** Validating twice changes nothing more, so re-validating a stored list leaves it alone. */
  lemma {:induction false} ValidateIdempotent(b: Beacon)
    requires Validate(b).Some?
    ensures Validate(Validate(b).value) == Validate(b)
    ensures Validate(b).value.h.age == b.h.age
    ensures Validate(b).value.Ap? == b.Ap? && Validate(b).value.Cell? == b.Cell?
  {}

  /** Addresses of all zeros or all ones are refused, all others accepted. */
  lemma {:induction false} RefusedAddresses(h: Header, ap: ApData)
    ensures Validate(Ap(h, ap)).None? <==> MacNumber(ap.mac) == 0 || MacNumber(ap.mac) == 0xFFFF_FFFF_FFFF
  {
    if MacNumber(ap.mac) == 0 {
      MacNumberInjective(ap.mac, [0, 0, 0, 0, 0, 0]);
    } else if MacNumber(ap.mac) == 0xFFFF_FFFF_FFFF {
      MacNumberInjective(ap.mac, [0xFF, 0xFF, 0xFF, 0xFF, 0xFF, 0xFF]);
    }
  }

  /** Of an access point only an impossible reading or frequency is rewritten, to "unknown". */
  lemma {:induction false} ApRewritten(h: Header, ap: ApData)
    requires Validate(Ap(h, ap)).Some?
    ensures var v := Validate(Ap(h, ap)).value;
            && v.Ap? && v.ap.mac == ap.mac && v.ap.used == ap.used && v.h.age == h.age && v.h.connected == h.connected
            && (-127 <= h.rssi <= -10 ==> v.h.rssi == h.rssi) && (h.rssi < -127 || -10 < h.rssi ==> v.h.rssi == -1)
            && (2400 <= ap.freq <= 6000 ==> v.ap.freq == ap.freq) && (ap.freq < 2400 || 6000 < ap.freq ==> v.ap.freq == 0)
  {}

  /** Of a cell only a reading its technology cannot give is rewritten, and a neighbour's flag and timing advance. */
  lemma {:induction false} CellRewritten(h: Header, c: CellData)
    requires Validate(Cell(h, c)).Some?
    ensures var v := Validate(Cell(h, c)).value;
            && v.Cell? && v.h.age == h.age && v.cell.(ta := c.ta) == c
            && (c.id2 != 0xFFFF ==> v.h.connected == h.connected && v.cell.ta == c.ta)
            && (c.id2 == 0xFFFF ==> !v.h.connected && v.cell.ta == -1)
            && (v.h.rssi == h.rssi || v.h.rssi == -1)
    ensures h.rssi != -1 ==>
              (Validate(Cell(h, c)).value.h.rssi == h.rssi <==>
               match c.kind
               case NR => -140 <= h.rssi <= -40
               case LTE => -140 <= h.rssi <= -40
               case UMTS => -120 <= h.rssi <= -20
               case NBIOT => -156 <= h.rssi <= -44
               case CDMA => -140 <= h.rssi <= -49
               case GSM => -128 <= h.rssi <= -32)
  {}

  /** An accepted cell has all of its primary identity or none; its country and network codes have three digits, its area
      code two bytes where it is checked, and its cell identity as many bits as its technology gives it, but for GSM. */
  lemma {:induction false} AcceptedIdentity(h: Header, c: CellData)
    requires Validate(Cell(h, c)).Some?
    ensures c.kind != CDMA ==> (c.id1 == 0xFFFF <==> c.id2 == 0xFFFF) && (c.id2 == 0xFFFF <==> c.id4 == -1)
    ensures c.kind != CDMA && c.id1 != 0xFFFF ==> 200 <= c.id1 <= 799 && c.id2 <= 999
    ensures c.kind == GSM ==> (c.id3 == -1 <==> c.id4 == -1)
    ensures c.kind in {LTE, NBIOT} && c.id3 != -1 ==> 1 <= c.id3 < 0x1_0000
    ensures c.kind in {LTE, NBIOT, UMTS} && c.id4 != -1 ==> 0 <= c.id4 < 0x1000_0000
    ensures c.kind == NR && c.id4 != -1 ==> 0 <= c.id4 < 0x10_0000_0000
    ensures c.kind == CDMA ==> c.id2 < 0x8000 && 0 <= c.id3 < 0x1_0000 && 0 <= c.id4 < 0x1_0000
  {}

  /** The same of what tells neighbours apart, and of the timing advance. */
  lemma {:induction false} AcceptedMeasurements(h: Header, c: CellData)
    requires Validate(Cell(h, c)).Some?
    ensures c.kind == LTE ==> c.id5 < 504 && c.freq < 0x4_0000 && -1 <= c.ta <= 7690
    ensures c.kind == NBIOT ==> -1 <= c.id5 < 504 && -1 <= c.freq < 0x4_0000
    ensures c.kind == GSM ==> -1 <= c.id5 < 64 && -1 <= c.freq < 1024 && c.freq != 0 && -1 <= c.ta < 64
    ensures c.kind == UMTS ==> c.id5 < 512 && (c.freq == -1 || 412 <= c.freq < 0x4_0000)
    ensures c.kind == NR ==> -1 <= c.id5 < 108 && -1 <= c.freq <= 3279165 && -1 <= c.ta <= 3846
  {}

  /** Nothing inside those bounds is refused: the extreme identities of each technology pass, and so do neighbours. */
  lemma {:induction false} ExtremesAccepted(h: Header)
    ensures Validate(Cell(h, CellData(LTE, 200, 0, 1, 0, 0, 0, 0))).Some?
    ensures Validate(Cell(h, CellData(LTE, 799, 999, 65535, 268435455, 503, 262143, 7690))).Some?
    ensures Validate(Cell(h, CellData(NBIOT, 200, 0, 1, 0, 0, 0, -1))).Some?
    ensures Validate(Cell(h, CellData(NBIOT, 799, 999, 65535, 268435455, 503, 262143, -1))).Some?
    ensures Validate(Cell(h, CellData(GSM, 200, 0, 0, 0, 0, 1, 0))).Some?
    ensures Validate(Cell(h, CellData(GSM, 799, 999, 0x7FFF_FFFF, 0x7FFF_FFFF_FFFF_FFFF, 63, 1023, 63))).Some?
    ensures Validate(Cell(h, CellData(UMTS, 200, 0, 0, 0, 0, 412, -1))).Some?
    ensures Validate(Cell(h, CellData(UMTS, 799, 999, 0x7FFF_FFFF, 268435455, 511, 262143, -1))).Some?
    ensures Validate(Cell(h, CellData(CDMA, 0, 0, 0, 0, 0, 0, -1))).Some?
    ensures Validate(Cell(h, CellData(CDMA, 0, 32767, 65535, 65535, 0, 0, -1))).Some?
    ensures Validate(Cell(h, CellData(NR, 200, 0, 0, 0, 0, 0, 0))).Some?
    ensures Validate(Cell(h, CellData(NR, 799, 999, 0x7FFF_FFFF, 68719476735, 107, 3279165, 3846))).Some?
    ensures forall kind: CellKind :: kind != CDMA ==> Validate(Cell(h, CellData(kind, 0xFFFF, 0xFFFF, -1, -1, -1, -1, -1))).Some?
  {}

  // ----- equality -----

  predicate CellEqual(a: CellData, b: CellData) {
    && a.kind == b.kind
    && match a.kind
       case CDMA =>
         && a.id2 == b.id2 && a.id3 == b.id3 && a.id4 == b.id4
         && a.id2 != UNKNOWN_ID2 && a.id3 != UNKNOWN_ID3 && a.id4 != UNKNOWN_ID4
       case GSM =>
         && a.id1 == b.id1 && a.id2 == b.id2 && a.id3 == b.id3 && a.id4 == b.id4
         && a.id1 != UNKNOWN_ID1 && a.id2 != UNKNOWN_ID2 && a.id3 != UNKNOWN_ID3 && a.id4 != UNKNOWN_ID4
       case _ =>
         && a.id1 == b.id1 && a.id2 == b.id2 && a.id4 == b.id4
         && (a.id1 == UNKNOWN_ID1 || a.id2 == UNKNOWN_ID2 || a.id4 == UNKNOWN_ID4 ==>
               a.id5 == b.id5 && a.freq == b.freq)
  }

  /** The plugins found the two beacons comparable and equal. */
  predicate Equal(a: Beacon, b: Beacon) {
    (a.Ap? && b.Ap? && a.ap.mac == b.ap.mac) || (a.Cell? && b.Cell? && CellEqual(a.cell, b.cell))
  }

  /** Equality is a partial equivalence; it is reflexive on valid beacons except unidentified GSM neighbours,
      so two of those never count as duplicates. */
  lemma {:induction false} EqualIsPartialEquivalence(a: Beacon, b: Beacon, c: Beacon)
    ensures Equal(a, b) ==> Equal(b, a)
    ensures Equal(a, b) && Equal(b, c) ==> Equal(a, c)
    ensures ValidBeacon(a) ==> (Equal(a, a) <==> !(a.Cell? && a.cell.kind == GSM && IsNmr(a)))
  {}

  /** Two cells are equal exactly if they are of one technology and have the same identity: network, system and base station
      for CDMA, with the area code for GSM, without it for the others. Of neighbours, GSM ones never are, and others by
      physical identity and frequency. */
  lemma {:induction false} SameCellIff(a: Beacon, b: Beacon)
    requires a.Cell? && b.Cell? && ValidBeacon(a) && ValidBeacon(b)
    ensures a.cell.kind != b.cell.kind ==> !Equal(a, b)
    ensures a.cell.kind == b.cell.kind ==>
              (Equal(a, b) <==>
               && a.cell.id2 == b.cell.id2
               && if a.cell.id2 != 0xFFFF then
                    && a.cell.id4 == b.cell.id4
                    && (a.cell.kind != CDMA ==> a.cell.id1 == b.cell.id1)
                    && (a.cell.kind in {CDMA, GSM} ==> a.cell.id3 == b.cell.id3)
                  else a.cell.kind != GSM && a.cell.id5 == b.cell.id5 && a.cell.freq == b.cell.freq)
  {}

  // ----- order -----

  /** The sign of memcmp(x, y). */
  function MemCmp(x: Mac, y: Mac): int {
    if MacLess(x, y) then -1 else if MacLess(y, x) then 1 else 0
  }

  /** A 32-bit unsigned difference read as a signed int. */
  function UnsignedDifference(x: Uint32, y: Uint32): int {
    var d := (x as int - y as int) % 0x1_0000_0000;
    if d < 0x8000_0000 then d else d - 0x1_0000_0000
  }

  function CellPriority(b: Beacon): nat {
    (if b.h.connected then 0x200 else 0) + (if IsNmr(b) then 0 else 0x100)
  }

  /** The plugins' compare: positive when a is better; None when no plugin knows both types. */
  function Compare(a: Beacon, b: Beacon): Option<int> {
    if a.Ap? && b.Ap? then
      Some(if a.h.rssi != b.h.rssi then EffectiveRssi(a.h.rssi) - EffectiveRssi(b.h.rssi)
           else MemCmp(b.ap.mac, a.ap.mac))
    else if a.Cell? && b.Cell? then
      Some(if CellPriority(a) != CellPriority(b) then CellPriority(a) - CellPriority(b)
           else if a.h.age != b.h.age then UnsignedDifference(b.h.age, a.h.age)
           else if TypeCode(a) != TypeCode(b) then TypeCode(b) - TypeCode(a)
           else EffectiveRssi(a.h.rssi) - EffectiveRssi(b.h.rssi))
    else None
  }

  /** is_beacon_first > 0: a is inserted before b. Beacons of one class go first on a tie; of different classes
      the lower type goes first. */
  predicate GoesFirst(a: Beacon, b: Beacon) {
    match Compare(a, b)
    case Some(diff) => diff >= 0
    case None => TypeCode(b) >= TypeCode(a)
  }

  /** Four keys as the digits of one number: priority, youth, technology, strength. */
  function Digits(priority: nat, age: Uint32, code: nat, strength: int): int {
    ((priority * 0x1_0000_0000 + (0xFFFF_FFFF - age)) * 0x10 + (8 - code)) * 0x1_0000 + (strength + 0x8000)
  }

  /** The list order as one number, access points above all cells; larger comes first. */
  function Rank(b: Beacon): int {
    match b
    case Ap(h, _) => 0x1_0000_0000_0000_0000_0000_0000 + EffectiveRssi(h.rssi)
    case Cell(h, cell) => Digits(CellPriority(b), h.age, KindCode(cell.kind), EffectiveRssi(h.rssi))
    case Other(_) => -1
  }

  /** The pairwise decision agrees with the rank; only ties are decided by the direction of the question. */
  lemma {:induction false} GoesFirstIsRank(a: Beacon, b: Beacon)
    requires (a.Ap? || a.Cell?) && (b.Ap? || b.Cell?)
    requires a.h.age < 0x8000_0000 && b.h.age < 0x8000_0000
    ensures GoesFirst(a, b) ==> Rank(a) >= Rank(b)
    ensures !GoesFirst(a, b) ==> Rank(b) >= Rank(a)
    ensures a.Cell? && b.Cell? ==> (GoesFirst(a, b) <==> Rank(a) >= Rank(b))
    ensures a.Ap? && b.Cell? ==> Rank(a) > Rank(b) && GoesFirst(a, b)
    ensures a.Cell? && b.Ap? ==> Rank(a) < Rank(b) && !GoesFirst(a, b)
  {
    if a.Cell? && b.Cell? {
      assert UnsignedDifference(b.h.age, a.h.age) == b.h.age - a.h.age;
      DigitsOrder(CellPriority(a), a.h.age, KindCode(a.cell.kind), EffectiveRssi(a.h.rssi),
                  CellPriority(b), b.h.age, KindCode(b.cell.kind), EffectiveRssi(b.h.rssi));
    }
  }

  lemma {:induction false} DigitsOrder(p: nat, a: Uint32, t: nat, r: Int16, p': nat, a': Uint32, t': nat, r': Int16)
    requires 3 <= t <= 8 && 3 <= t' <= 8
    ensures Digits(p, a, t, r) >= Digits(p', a', t', r') <==>
            if p != p' then p > p' else if a != a' then a < a' else if t != t' then t < t' else r >= r'
  {}

  /** Of two cells of one priority the younger goes first exactly if the ages are less than 2^31 apart; beyond that the
      older one does. */
  lemma {:induction false} YoungerFirstIff(a: Beacon, b: Beacon)
    requires a.Cell? && b.Cell? && CellPriority(a) == CellPriority(b) && a.h.age < b.h.age
    ensures GoesFirst(a, b) <==> b.h.age as int - a.h.age as int < 0x8000_0000
    ensures GoesFirst(b, a) <==> b.h.age as int - a.h.age as int > 0x8000_0000
  {
    var d := b.h.age as int - a.h.age as int;
    assert (0 - d) % 0x1_0000_0000 == 0x1_0000_0000 - d;
  }

  /** Without the bound on ages the order breaks: an age difference above 2^31 is read with the wrong sign. */
  lemma {:induction false} OldAgesWrap()
    ensures exists h: Header, c: CellData, age: Uint32 ::
              age > h.age && GoesFirst(Cell(h.(age := age), c), Cell(h, c))
              && !GoesFirst(Cell(h, c), Cell(h.(age := age), c))
  {
    var h, c, age := Header(0, -100, false), CellData(LTE, 310, 410, 1, 1, 1, 1, UNKNOWN_TA), 0x9000_0000;
    assert UnsignedDifference(h.age, age) == 0x7000_0000;
    assert UnsignedDifference(age, h.age) == -0x7000_0000;
    assert GoesFirst(Cell(h.(age := age), c), Cell(h, c)) && !GoesFirst(Cell(h, c), Cell(h.(age := age), c));
  }
}
