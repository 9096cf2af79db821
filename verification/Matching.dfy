/** One-to-one pairing and independent sets for an arbitrary relation. */
module Pairing {

  /** Left and right positions that are paired up. */
  type Pairs = set<(nat, nat)>

  ghost predicate TakenRight(p: Pairs, y: nat) {
    exists q :: q in p && q.1 == y
  }

  ghost predicate TakenLeft(p: Pairs, x: nat) {
    exists q :: q in p && q.0 == x
  }

  /** The first entry of `line` from `i` on that is related to `m` and not taken; |line| if there is none. */
  ghost function FirstFree<T>(rel: (T, T) -> bool, m: T, line: seq<T>, p: Pairs, i: nat): (r: nat)
    requires i <= |line|
    ensures i <= r <= |line|
    ensures r < |line| ==> !TakenRight(p, r) && rel(m, line[r])
    ensures forall k | i <= k < r :: TakenRight(p, k) || !rel(m, line[k])
    decreases |line| - i
  {
    if i == |line| || (!TakenRight(p, i) && rel(m, line[i])) then i else FirstFree(rel, m, line, p, i + 1)
  }

  /** The pairing after the first `j` entries of `req` have each taken the first free related entry of `line`. */
  ghost function Greedy<T>(rel: (T, T) -> bool, req: seq<T>, line: seq<T>, j: nat): Pairs
    requires j <= |req|
  {
    if j == 0 then {} else
      var p := Greedy(rel, req, line, j - 1);
      var i := FirstFree(rel, req[j - 1], line, p, 0);
      if i < |line| then p + {(j - 1, i)} else p
  }

  ghost predicate OneToOne(p: Pairs) {
    forall q, r | q in p && r in p && (q.0 == r.0 || q.1 == r.1) :: q == r
  }

  /** A one-to-one pairing of related entries. */
  ghost predicate IsMatching<T>(rel: (T, T) -> bool, p: Pairs, req: seq<T>, line: seq<T>) {
    && OneToOne(p)
    && forall q | q in p :: q.0 < |req| && q.1 < |line| && rel(req[q.0], line[q.1])
  }

  /** No further related pair could be added. */
  ghost predicate IsMaximal<T>(rel: (T, T) -> bool, p: Pairs, req: seq<T>, line: seq<T>) {
    forall x, y | 0 <= x < |req| && 0 <= y < |line| && rel(req[x], line[y]) :: TakenLeft(p, x) || TakenRight(p, y)
  }

  ghost predicate MaximalUpTo<T>(rel: (T, T) -> bool, p: Pairs, req: seq<T>, line: seq<T>, j: nat)
    requires j <= |req|
  {
    forall x, y | 0 <= x < j && 0 <= y < |line| && rel(req[x], line[y]) :: TakenLeft(p, x) || TakenRight(p, y)
  }

  lemma {:induction false} GreedyIsMatching<T>(rel: (T, T) -> bool, req: seq<T>, line: seq<T>, j: nat)
    requires j <= |req|
    ensures IsMatching(rel, Greedy(rel, req, line, j), req, line)
    ensures forall q | q in Greedy(rel, req, line, j) :: q.0 < j
  {
    if j > 0 {
      GreedyIsMatching(rel, req, line, j - 1);
    }
  }

  lemma {:induction false} GreedyIsMaximal<T>(rel: (T, T) -> bool, req: seq<T>, line: seq<T>, j: nat)
    requires j <= |req|
    ensures MaximalUpTo(rel, Greedy(rel, req, line, j), req, line, j)
  {
    if j > 0 {
      GreedyIsMaximal(rel, req, line, j - 1);
      var p, p' := Greedy(rel, req, line, j - 1), Greedy(rel, req, line, j);
      var i := FirstFree(rel, req[j - 1], line, p, 0);
      assert i < |line| ==> (j - 1, i) in p';
      forall x, y | 0 <= x < j && 0 <= y < |line| && rel(req[x], line[y])
        ensures TakenLeft(p', x) || TakenRight(p', y)
      {
        if x < j - 1 {
          var q :| q in p && (q.0 == x || q.1 == y);
          assert q in p';
        } else if y < i {
          var q :| q in p && q.1 == y;
          assert q in p';
        }
      }
    }
  }

  /** If every pair of b shares its left entry with a pair of p, b is no larger than p. */
  lemma {:induction false} LeftBlocked(b: Pairs, p: Pairs)
    requires OneToOne(b) && forall q | q in b :: TakenLeft(p, q.0)
    ensures |b| <= |p|
    decreases |b|
  {
    if b != {} {
      var q :| q in b;
      var r :| r in p && r.0 == q.0;
      forall s | s in b - {q} ensures TakenLeft(p - {r}, s.0) {
        var t :| t in p && t.0 == s.0;
        assert t in p - {r};
      }
      LeftBlocked(b - {q}, p - {r});
    }
  }

  lemma {:induction false} RightBlocked(b: Pairs, p: Pairs)
    requires OneToOne(b) && forall q | q in b :: TakenRight(p, q.1)
    ensures |b| <= |p|
    decreases |b|
  {
    if b != {} {
      var q :| q in b;
      var r :| r in p && r.1 == q.1;
      forall s | s in b - {q} ensures TakenRight(p - {r}, s.1) {
        var t :| t in p && t.1 == s.1;
        assert t in p - {r};
      }
      RightBlocked(b - {q}, p - {r});
    }
  }

  ghost function LeftPart(b: Pairs, p: Pairs): (r: Pairs)
    ensures forall q :: q in r <==> q in b && TakenLeft(p, q.0)
  {
    set q | q in b && TakenLeft(p, q.0)
  }

  /** A maximal pairing is at least half as large as any other. */
  lemma {:induction false} MaximalIsHalfOptimal<T>(rel: (T, T) -> bool, p: Pairs, best: Pairs, req: seq<T>, line: seq<T>)
    requires IsMaximal(rel, p, req, line) && IsMatching(rel, best, req, line)
    ensures |best| <= 2 * |p|
  {
    var left := LeftPart(best, p);
    var right := best - left;
    forall q | q in right ensures TakenRight(p, q.1) {
      assert rel(req[q.0], line[q.1]) && !TakenLeft(p, q.0);
    }
    assert OneToOne(left) && OneToOne(right);
    LeftBlocked(left, p);
    RightBlocked(right, p);
    SplitSize(best, left);
  }

  lemma {:induction false} SplitSize(b: Pairs, part: Pairs)
    requires part <= b
    ensures |b| == |part| + |b - part|
  {
    assert b == part + (b - part);
  }

  function Diagonal(n: nat): Pairs {
    if n == 0 then {} else Diagonal(n - 1) + {(n - 1, n - 1)}
  }

  lemma {:induction false} DiagonalPairs(n: nat)
    ensures |Diagonal(n)| == n
    ensures forall q :: q in Diagonal(n) <==> q.0 == q.1 < n
  {
    if n > 0 {
      DiagonalPairs(n - 1);
    }
  }

  lemma {:induction false} LeftSize(p: Pairs, n: nat)
    requires OneToOne(p) && forall q | q in p :: q.0 < n
    ensures |p| <= n
    ensures |p| == n ==> forall x | 0 <= x < n :: TakenLeft(p, x)
  {
    DiagonalPairs(n);
    var d := Diagonal(n);
    forall q | q in p ensures TakenLeft(d, q.0) {
      assert (q.0, q.0) in d;
    }
    LeftBlocked(p, d);
    forall x | 0 <= x < n && !TakenLeft(p, x) ensures |p| < n {
      forall q | q in p ensures TakenLeft(d - {(x, x)}, q.0) {
        assert (q.0, q.0) in d - {(x, x)};
      }
      LeftBlocked(p, d - {(x, x)});
    }
  }

  lemma {:induction false} RightSize(p: Pairs, n: nat)
    requires OneToOne(p) && forall q | q in p :: q.1 < n
    ensures |p| <= n
    ensures |p| == n ==> forall y | 0 <= y < n :: TakenRight(p, y)
  {
    DiagonalPairs(n);
    var d := Diagonal(n);
    forall q | q in p ensures TakenRight(d, q.1) {
      assert (q.1, q.1) in d;
    }
    RightBlocked(p, d);
    forall y | 0 <= y < n && !TakenRight(p, y) ensures |p| < n {
      forall q | q in p ensures TakenRight(d - {(y, y)}, q.1) {
        assert (q.1, q.1) in d - {(y, y)};
      }
      RightBlocked(p, d - {(y, y)});
    }
  }

  /** A one-to-one pairing is no larger than either side, and as large only if it leaves nobody out. */
  lemma {:induction false} MatchingSize<T>(rel: (T, T) -> bool, p: Pairs, req: seq<T>, line: seq<T>)
    requires IsMatching(rel, p, req, line)
    ensures |p| <= |req| && |p| <= |line|
    ensures |p| == |req| ==> forall x | 0 <= x < |req| :: TakenLeft(p, x)
    ensures |p| == |line| ==> forall y | 0 <= y < |line| :: TakenRight(p, y)
  {
    LeftSize(p, |req|);
    RightSize(p, |line|);
  }

  lemma {:induction false} FirstFreeIs<T>(rel: (T, T) -> bool, m: T, line: seq<T>, p: Pairs, r: nat)
    requires r < |line| && !TakenRight(p, r) && rel(m, line[r])
    requires forall k | 0 <= k < r :: TakenRight(p, k)
    ensures FirstFree(rel, m, line, p, 0) == r
  {}

  lemma {:induction false} DiagonalTakes(n: nat)
    ensures forall k | 0 <= k < n :: TakenRight(Diagonal(n), k)
    ensures !TakenRight(Diagonal(n), n)
  {
    DiagonalPairs(n);
    forall k | 0 <= k < n ensures TakenRight(Diagonal(n), k) {
      assert (k, k) in Diagonal(n);
    }
  }

  /** Against its own copy every entry takes its own twin. */
  lemma {:induction false} GreedyOnCopy<T(!new)>(rel: (T, T) -> bool, s: seq<T>, j: nat)
    requires j <= |s| && forall x :: rel(x, x)
    ensures Greedy(rel, s, s, j) == Diagonal(j)
  {
    if j > 0 {
      GreedyOnCopy(rel, s, j - 1);
      DiagonalTakes(j - 1);
      FirstFreeIs(rel, s[j - 1], s, Diagonal(j - 1), j - 1);
    }
  }

  /** Entry i is counted unless an earlier counted entry is related to it. */
  ghost predicate Counted<T>(rel: (T, T) -> bool, s: seq<T>, i: nat)
    requires i < |s|
    decreases i
  {
    forall k | 0 <= k < i && Counted(rel, s, k) :: !rel(s[k], s[i])
  }

  ghost function CountedSet<T>(rel: (T, T) -> bool, s: seq<T>, n: nat): (c: set<nat>)
    requires n <= |s|
    ensures forall i: nat :: i in c <==> i < n && Counted(rel, s, i)
  {
    if n == 0 then {} else CountedSet(rel, s, n - 1) + if Counted(rel, s, n - 1) then {n - 1} else {}
  }

  lemma {:induction false} CountedSetStep<T>(rel: (T, T) -> bool, s: seq<T>, i: nat)
    requires i < |s|
    ensures |CountedSet(rel, s, i + 1)| == |CountedSet(rel, s, i)| + if Counted(rel, s, i) then 1 else 0
  {}

  /** A set of entries no two of which are related, and to one of which every other entry is related. */
  ghost predicate IsMaximalIndependent<T>(rel: (T, T) -> bool, t: set<nat>, s: seq<T>) {
    && (forall x | x in t :: x < |s|)
    && (forall x, y | x in t && y in t && x != y :: !rel(s[x], s[y]))
    && (forall y | 0 <= y < |s| && y !in t :: exists x :: x in t && x < y && rel(s[x], s[y]))
  }

  lemma {:induction false} CountedIsMaximalIndependent<T(!new)>(rel: (T, T) -> bool, s: seq<T>)
    requires forall x, y :: rel(x, y) == rel(y, x)
    ensures IsMaximalIndependent(rel, CountedSet(rel, s, |s|), s)
  {
    var t := CountedSet(rel, s, |s|);
    forall y | 0 <= y < |s| && y !in t ensures exists x :: x in t && x < y && rel(s[x], s[y]) {
      assert !Counted(rel, s, y);
      var x :| 0 <= x < y && Counted(rel, s, x) && rel(s[x], s[y]);
      assert x in t;
    }
  }

  /** Earliest first decides the set: there is only one maximal independent set of this kind. */
  lemma {:induction false} CountedIsUnique<T>(rel: (T, T) -> bool, t: set<nat>, s: seq<T>, n: nat)
    requires IsMaximalIndependent(rel, t, s) && n <= |s|
    ensures forall i | 0 <= i < n :: i in t <==> Counted(rel, s, i)
  {
    if n > 0 {
      CountedIsUnique(rel, t, s, n - 1);
      var i := n - 1;
      if i !in t {
        var x :| x in t && x < i && rel(s[x], s[i]);
        assert Counted(rel, s, x);
      } else {
        forall k | 0 <= k < i && Counted(rel, s, k) ensures !rel(s[k], s[i]) {
          assert k in t;
        }
      }
    }
  }
}

/** Pairing the access points of a scan with those of a stored scan, and counting virtual groups:
    count_cached_aps_in_request_ctx and count_uniq_vg of plugins/ap_plugin_basic.c. */
module Matching {
  import opened Macs
  import opened Pairing

  type Scan = seq<Mac>

  ghost function Pairs(req: Scan, line: Scan): Pairing.Pairs {
    Greedy(Similar, req, line, |req|)
  }

  /** The number of access points of `req` found in `line`. */
  ghost function Score(req: Scan, line: Scan): nat {
    |Pairs(req, line)|
  }

  /** The flags say which entries of a stored scan are taken. */
  ghost predicate Flags(matched: seq<bool>, p: Pairing.Pairs) {
    forall k | 0 <= k < |matched| :: matched[k] <==> TakenRight(p, k)
  }

  /** The nested loops of the source with their array of matched flags. */
  method CountCachedAps(req: Scan, line: Scan) returns (numApsCached: nat)
    ensures numApsCached == Score(req, line)
  {
    numApsCached := 0;
    var matched := new bool[|line|](_ => false);
    ghost var p: Pairing.Pairs := {};
    for j := 0 to |req|
      invariant p == Greedy(Similar, req, line, j) && numApsCached == |p|
      invariant forall q | q in p :: q.0 < j
      invariant Flags(matched[..], p)
    {
      numApsCached, p := PairEntry(req, line, j, matched, numApsCached, p);
    }
  }

  /** The body of the outer loop. */
  method PairEntry(req: Scan, line: Scan, j: nat, matched: array<bool>, before: nat, ghost p: Pairing.Pairs)
    returns (numApsCached: nat, ghost p': Pairing.Pairs)
    requires j < |req| && matched.Length == |line| && Flags(matched[..], p)
    requires p == Greedy(Similar, req, line, j) && before == |p| && forall q | q in p :: q.0 < j
    modifies matched
    ensures p' == Greedy(Similar, req, line, j + 1) && numApsCached == |p'| && forall q | q in p' :: q.0 < j + 1
    ensures Flags(matched[..], p')
  {
    numApsCached, p' := before, p;
    var i := FirstUnmatched(req[j], line, matched, p);
    GreedyStep(req, line, j, p, i);
    if i < |line| {
      numApsCached := numApsCached + 1;
      FlagRaised(matched[..], p, j, i);
      ghost var was := matched[..];
      matched[i] := true;
      assert matched[..] == was[i := true];
      p' := p + {(j, i)};
    }
  }

  lemma {:induction false} GreedyStep(req: Scan, line: Scan, j: nat, p: Pairing.Pairs, i: nat)
    requires j < |req| && p == Greedy(Similar, req, line, j) && i == FirstFree(Similar, req[j], line, p, 0)
    requires forall q | q in p :: q.0 < j
    ensures Greedy(Similar, req, line, j + 1) == if i < |line| then p + {(j, i)} else p
    ensures |p + {(j, i)}| == |p| + 1
  {}

  /** The inner loop: the first unmatched similar entry, |line| if it runs to the end. */
  method FirstUnmatched(m: Mac, line: Scan, matched: array<bool>, ghost p: Pairing.Pairs) returns (i: nat)
    requires matched.Length == |line| && Flags(matched[..], p)
    ensures i == FirstFree(Similar, m, line, p, 0)
  {
    ghost var next := FirstFree(Similar, m, line, p, 0);
    i := 0;
    while i < |line|
      invariant 0 <= i <= next
    {
      assert matched[i] == matched[..][i];
      if !matched[i] {
        var similar, _ := MacSimilar(m, line[i]);
        if similar != 0 {
          break;
        }
      }
      i := i + 1;
    }
  }

  lemma {:induction false} FlagRaised(matched: seq<bool>, p: Pairing.Pairs, x: nat, y: nat)
    requires Flags(matched, p) && y < |matched|
    ensures Flags(matched[y := true], p + {(x, y)})
  {
    PairAdded(p, x, y);
  }

  lemma {:induction false} PairAdded(p: Pairing.Pairs, x: nat, y: nat)
    ensures forall k :: TakenRight(p + {(x, y)}, k) <==> TakenRight(p, k) || k == y
  {
    var p' := p + {(x, y)};
    assert (x, y) in p';
    forall k | TakenRight(p, k) ensures TakenRight(p', k) {
      var q :| q in p && q.1 == k;
      assert q in p';
    }
  }

  /** The pairing found is one-to-one and maximal, so its score is at least half that of any one-to-one pairing
      and at most the size of either scan. */
  lemma {:induction false} GreedyIsHalfOptimal(req: Scan, line: Scan, best: Pairing.Pairs)
    requires IsMatching(Similar, best, req, line)
    ensures IsMatching(Similar, Pairs(req, line), req, line) && IsMaximal(Similar, Pairs(req, line), req, line)
    ensures |best| <= 2 * Score(req, line)
    ensures Score(req, line) <= |req| && Score(req, line) <= |line|
  {
    GreedyIsMatching(Similar, req, line, |req|);
    GreedyIsMaximal(Similar, req, line, |req|);
    MaximalIsHalfOptimal(Similar, Pairs(req, line), best, req, line);
    MatchingSize(Similar, Pairs(req, line), req, line);
  }

  lemma {:induction false} ScoreBounds(req: Scan, line: Scan)
    ensures Score(req, line) <= |req| && Score(req, line) <= |line|
  {
    GreedyIsMatching(Similar, req, line, |req|);
    MatchingSize(Similar, Pairs(req, line), req, line);
  }

  /** A scan pairs perfectly with its own copy. */
  lemma {:induction false} CopyScoresFully(s: Scan)
    ensures Score(s, s) == |s|
  {
    forall a: Mac ensures Similar(a, a) {
      SimilarSymmetric(a, a);
    }
    GreedyOnCopy(Similar, s, |s|);
    DiagonalPairs(|s|);
  }

  /** The score reaches the size of the union only if every address on either side is paired. */
  lemma {:induction false} FullScoreIsPerfect(req: Scan, line: Scan)
    requires Score(req, line) >= |req| + |line| - Score(req, line)
    ensures Score(req, line) == |req| == |line|
    ensures forall x | 0 <= x < |req| :: TakenLeft(Pairs(req, line), x)
    ensures forall y | 0 <= y < |line| :: TakenRight(Pairs(req, line), y)
  {
    GreedyIsMatching(Similar, req, line, |req|);
    MatchingSize(Similar, Pairs(req, line), req, line);
  }

  /** The bound of one half is met: two scans of two addresses whose perfect pairing the greedy one misses. */
  lemma {:induction false} HalfIsSharp()
    ensures exists req: Scan, line: Scan, best: Pairing.Pairs ::
              IsMatching(Similar, best, req, line) && |best| == 2 && Score(req, line) == 1
  {
    var a: Mac := [4, 0, 0, 0, 0, 0];
    var b: Mac := [4, 0, 0, 0, 0, 1];
    var c: Mac := [4, 0, 0, 0, 1, 1];
    var d: Mac := [4, 0, 0, 0, 0, 0x10];
    FourAddresses(a, b, c, d);
    var req: Scan, line: Scan := [b, d], [a, c];
    var best: Pairing.Pairs := {(0, 1), (1, 0)};
    assert IsMatching(Similar, best, req, line);
    var p0: Pairing.Pairs := {};
    assert Greedy(Similar, req, line, 0) == p0;
    assert FirstFree(Similar, b, line, p0, 0) == 0;
    var p1: Pairing.Pairs := {(0, 0)};
    assert Greedy(Similar, req, line, 1) == p1;
    assert (0, 0) in p1 && TakenRight(p1, 0);
    assert FirstFree(Similar, d, line, p1, 0) == 2;
    assert Greedy(Similar, req, line, 2) == p1;
    assert Score(req, line) == 1;
  }

  lemma {:induction false} FourAddresses(a: Mac, b: Mac, c: Mac, d: Mac)
    requires a == [4, 0, 0, 0, 0, 0] && b == [4, 0, 0, 0, 0, 1]
    requires c == [4, 0, 0, 0, 1, 1] && d == [4, 0, 0, 0, 0, 0x10]
    ensures Similar(b, a) && Similar(b, c) && Similar(d, a) && !Similar(d, c)
  {
    OneDifference(b, a, 11, 12);
    OneDifference(b, c, 9, 12);
    OneDifference(d, a, 10, 12);
    TwoDifferences(d, c, 9, 10, 12);
  }

  ghost function CountedUpTo(s: Scan, n: nat): nat
    requires n <= |s|
  {
    |CountedSet(Similar, s, n)|
  }

  /** How many entries are counted: the number of virtual groups as the library sees it. */
  ghost function UniqueGroups(s: Scan): nat {
    CountedUpTo(s, |s|)
  }

  /** An earlier counted entry among the first n is similar to entry k. */
  ghost predicate Marked(s: Scan, n: nat, k: nat)
    requires n <= |s| && k < |s|
  {
    exists c :: 0 <= c < n && c < k && Counted(Similar, s, c) && Similar(s[c], s[k])
  }

  lemma {:induction false} MarkedStep(s: Scan, i: nat, k: nat)
    requires i < |s| && k < |s|
    ensures Marked(s, i + 1, k) <==> Marked(s, i, k) || (Counted(Similar, s, i) && i < k && Similar(s[i], s[k]))
  {}

  ghost predicate Marks(redundant: seq<bool>, s: Scan, n: nat) {
    && |redundant| == |s| && n <= |s|
    && forall k | 0 <= k < |s| :: redundant[k] <==> Marked(s, n, k)
  }

  /** The source's loops over a flag array, marking whatever is similar to a counted entry. */
  method CountUniqVg(s: Scan) returns (numAps: nat)
    ensures numAps == UniqueGroups(s)
  {
    var redundant := new bool[|s|](_ => false);
    numAps := 0;
    for i := 0 to |s|
      invariant numAps == CountedUpTo(s, i)
      invariant Marks(redundant[..], s, i)
    {
      numAps := CountEntry(s, i, redundant, numAps);
    }
  }

  /** The body of the outer loop. */
  method CountEntry(s: Scan, i: nat, redundant: array<bool>, before: nat) returns (numAps: nat)
    requires i < |s| == redundant.Length && Marks(redundant[..], s, i) && before == CountedUpTo(s, i)
    modifies redundant
    ensures Marks(redundant[..], s, i + 1) && numAps == CountedUpTo(s, i + 1)
  {
    numAps := before;
    CountedUpToStep(redundant[..], s, i);
    if !redundant[i] {
      numAps := numAps + 1;
      MarkGroup(s, i, redundant);
    } else {
      MarksStep(redundant[..], redundant[..], s, i);
    }
  }

  /** The inner loop: mark every later entry similar to entry i. */
  method MarkGroup(s: Scan, i: nat, redundant: array<bool>)
    requires i < |s| == redundant.Length
    requires Marks(redundant[..], s, i) && !redundant[i]
    modifies redundant
    ensures Marks(redundant[..], s, i + 1)
  {
    ghost var flags := redundant[..];
    for j := i + 1 to |s|
      invariant forall k | 0 <= k < |s| :: redundant[k] <==> flags[k] || (i < k < j && Similar(s[i], s[k]))
    {
      if !redundant[j] {
        var similar, _ := MacSimilar(s[i], s[j]);
        if similar != 0 {
          redundant[j] := true;
        }
      }
    }
    MarksStep(flags, redundant[..], s, i);
  }

  lemma {:induction false} CountedIffUnmarked(flags: seq<bool>, s: Scan, i: nat)
    requires Marks(flags, s, i) && i < |s|
    ensures flags[i] <==> !Counted(Similar, s, i)
  {}

  lemma {:induction false} CountedUpToStep(flags: seq<bool>, s: Scan, i: nat)
    requires Marks(flags, s, i) && i < |s|
    ensures CountedUpTo(s, i + 1) == CountedUpTo(s, i) + if flags[i] then 0 else 1
  {
    CountedIffUnmarked(flags, s, i);
    CountedSetStep(Similar, s, i);
  }

  lemma {:induction false} MarksStep(flags: seq<bool>, flags': seq<bool>, s: Scan, i: nat)
    requires Marks(flags, s, i) && i < |s| == |flags'|
    requires flags[i] ==> flags' == flags
    requires !flags[i] ==> forall k | 0 <= k < |s| :: flags'[k] <==> flags[k] || (i < k && Similar(s[i], s[k]))
    ensures Marks(flags', s, i + 1)
  {
    CountedIffUnmarked(flags, s, i);
    forall k | 0 <= k < |s| ensures flags'[k] <==> Marked(s, i + 1, k) {
      MarkedStep(s, i, k);
    }
  }

  /** What is counted is the one set of pairwise dissimilar addresses such that every address left out is similar
      to an earlier one in the set. */
  lemma {:induction false} UniqVgIsMaximalIndependent(s: Scan, t: set<nat>)
    ensures IsMaximalIndependent(Similar, CountedSet(Similar, s, |s|), s)
    ensures IsMaximalIndependent(Similar, t, s) ==> t == CountedSet(Similar, s, |s|)
  {
    forall a: Mac, b: Mac ensures Similar(a, b) == Similar(b, a) {
      SimilarSymmetric(a, b);
    }
    CountedIsMaximalIndependent(Similar, s);
    if IsMaximalIndependent(Similar, t, s) {
      CountedIsUnique(Similar, t, s, |s|);
    }
  }
}
