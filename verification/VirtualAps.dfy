/** Choosing which virtual-AP children a request carries: select_vap, get_num_vaps and get_vap_data of
    libel/utilities.c. A group is the list of children of one access point. */
module VirtualAps {
  import opened Prelude

  const VAP_PARENT: nat := 1

  function Sum(s: seq<nat>): nat {
    if s == [] then 0 else s[0] + Sum(s[1..])
  }

  /** Round-robin allocation stopped in round `round` just before position `turn`: everybody has had `round`
      turns, those before `turn` one more, and nobody holds more than it has children. */
  function Dealt(vg: seq<nat>, round: nat, turn: nat): (cap: seq<nat>)
    ensures |cap| == |vg|
  {
    seq(|vg|, j requires 0 <= j < |vg| => Min(vg[j], if j < turn then round + 1 else round))
  }

  /** A fair allocation of at most `limit` children: nothing is wasted, nobody is over-served, and a group
      falls behind another only if it is exhausted, or by one if it comes later in the list. */
  ghost predicate Fair(vg: seq<nat>, cap: seq<nat>, limit: nat) {
    && |cap| == |vg|
    && Sum(cap) == Min(limit, Sum(vg))
    && (forall j | 0 <= j < |vg| :: cap[j] <= vg[j])
    && (forall i, j | 0 <= i < |vg| && 0 <= j < |vg| && cap[i] < cap[j] ::
          cap[i] == vg[i] || (cap[i] + 1 == cap[j] && j < i))
  }

  lemma {:induction false} SumUpdate(s: seq<nat>, j: nat, v: nat)
    requires j < |s|
    ensures Sum(s[j := v]) == Sum(s) - s[j] + v
  {
    if j > 0 {
      assert s[j := v][1..] == s[1..][j - 1 := v];
      SumUpdate(s[1..], j - 1, v);
    } else {
      assert s[j := v][1..] == s[1..];
    }
  }

  lemma {:induction false} SumZero(s: seq<nat>)
    requires forall j | 0 <= j < |s| :: s[j] == 0
    ensures Sum(s) == 0
  {
    if s != [] {
      SumZero(s[1..]);
    }
  }

  lemma {:induction false} SumMonotone(s: seq<nat>, t: seq<nat>)
    requires |s| == |t| && forall j | 0 <= j < |s| :: s[j] <= t[j]
    ensures Sum(s) <= Sum(t)
    ensures Sum(s) == Sum(t) ==> s == t
  {
    if s != [] {
      SumMonotone(s[1..], t[1..]);
      assert s == [s[0]] + s[1..] && t == [t[0]] + t[1..];
    }
  }

  /** A turn gives the group one child more if it has one to spare. */
  lemma {:induction false} DealtTurn(vg: seq<nat>, round: nat, j: nat)
    requires j < |vg|
    ensures var cap := Dealt(vg, round, j);
            Dealt(vg, round, j + 1) == if vg[j] > cap[j] then cap[j := cap[j] + 1] else cap
  {}

  lemma {:induction false} DealtRound(vg: seq<nat>, round: nat)
    ensures Dealt(vg, round, |vg|) == Dealt(vg, round + 1, 0)
  {}

  /** The inner loop: one round of turns, cut short when the request is full. `noMore` is cleared if somebody served
      in this round has children to spare. */
  method DealOneRound(vg: seq<nat>, limit: nat, capVap: array<nat>, dealt: nat, ghost round: nat)
    returns (nvap: nat, noMore: bool)
    requires capVap.Length == |vg| && capVap[..] == Dealt(vg, round, 0) && dealt == Sum(capVap[..]) < limit
    modifies capVap
    ensures nvap == Sum(capVap[..]) <= limit
    ensures exists t :: capVap[..] == Dealt(vg, round, t)
    ensures nvap < limit ==> capVap[..] == Dealt(vg, round + 1, 0)
    ensures noMore && nvap < limit ==> capVap[..] == vg
    ensures !noMore ==> nvap > dealt
  {
    nvap, noMore := dealt, true;
    var j := 0;
    while j < |vg|
      invariant 0 <= j <= |vg|
      invariant dealt <= nvap == Sum(capVap[..]) < limit
      invariant capVap[..] == Dealt(vg, round, j)
      invariant noMore ==> forall i | 0 <= i < j :: capVap[i] == vg[i]
      invariant !noMore ==> nvap > dealt
    {
      DealtTurn(vg, round, j);
      if vg[j] > capVap[j] {
        SumUpdate(capVap[..], j, capVap[j] + 1);
        ghost var before := capVap[..];
        capVap[j] := capVap[j] + 1;
        assert capVap[..] == before[j := before[j] + 1];
        nvap := nvap + 1;
        if nvap == limit {
          return;
        }
        if vg[j] > capVap[j] {
          noMore := false;
        }
      }
      j := j + 1;
    }
    DealtRound(vg, round);
  }

  /** The allocation loop of select_vap: rounds over all groups, one child a turn, until the request is full or
      a round leaves nobody with children to spare. */
  method Allocate(vg: seq<nat>, limit: nat) returns (capVap: array<nat>)
    ensures fresh(capVap) && Fair(vg, capVap[..], limit)
  {
    capVap := new nat[|vg|](_ => 0);
    var nvap, noMore := 0, false;
    ghost var round := 0;
    assert capVap[..] == Dealt(vg, 0, 0);
    SumZero(capVap[..]);
    while !noMore && nvap < limit
      invariant nvap == Sum(capVap[..]) <= limit
      invariant noMore && nvap < limit ==> capVap[..] == vg
      invariant nvap < limit ==> capVap[..] == Dealt(vg, round, 0)
      invariant exists r, t :: capVap[..] == Dealt(vg, r, t)
      decreases if noMore then 0 else 1, limit - nvap
    {
      nvap, noMore := DealOneRound(vg, limit, capVap, nvap, round);
      round := round + 1;
    }
    DealtIsFair(vg, capVap[..]);
    SumMonotone(capVap[..], vg);
  }

  lemma {:induction false} DealtIsFair(vg: seq<nat>, cap: seq<nat>)
    requires exists r, t :: cap == Dealt(vg, r, t)
    ensures forall j | 0 <= j < |vg| :: cap[j] <= vg[j]
    ensures forall i, j | 0 <= i < |vg| && 0 <= j < |vg| && cap[i] < cap[j] ::
              cap[i] == vg[i] || (cap[i] + 1 == cap[j] && j < i)
  {
    var r, t :| cap == Dealt(vg, r, t);
  }

  // ----- what fairness buys: as many groups as possible survive -----

  function Live(s: seq<nat>): set<nat> {
    set j: nat | j < |s| && s[j] > 0
  }

  lemma {:induction false} SumAtLeastLive(s: seq<nat>)
    ensures |Live(s)| <= Sum(s)
  {
    if s != [] {
      var n := |s| - 1;
      var rest := s[..n];
      SumAtLeastLive(rest);
      assert s == rest + [s[n]];
      SumAppend(rest, [s[n]]);
      assert Live(s) == Live(rest) + (if s[n] > 0 then {n} else {});
    }
  }

  lemma {:induction false} SumAppend(a: seq<nat>, b: seq<nat>)
    ensures Sum(a + b) == Sum(a) + Sum(b)
  {
    if a == [] {
      assert a + b == b;
    } else {
      assert (a + b)[1..] == a[1..] + b;
      SumAppend(a[1..], b);
    }
  }

  /** If every entry is at most one, the sum counts the live entries. */
  lemma {:induction false} SumOfBits(s: seq<nat>)
    requires forall j | 0 <= j < |s| :: s[j] <= 1
    ensures Sum(s) == |Live(s)|
  {
    if s != [] {
      var n := |s| - 1;
      var rest := s[..n];
      SumOfBits(rest);
      assert s == rest + [s[n]];
      SumAppend(rest, [s[n]]);
      assert Live(s) == Live(rest) + (if s[n] > 0 then {n} else {});
    }
  }

  /** min(limit, number of non-empty groups) groups survive, and when not all do, those kept are the first. */
  lemma {:induction false} GroupsSurvive(vg: seq<nat>, cap: seq<nat>, limit: nat)
    requires Fair(vg, cap, limit)
    ensures |Live(cap)| == Min(limit, |Live(vg)|)
    ensures forall i, j | i in Live(vg) && j in Live(cap) && i < j :: i in Live(cap)
  {
    assert Live(cap) <= Live(vg);
    SubsetSize(Live(cap), Live(vg));
    SumAtLeastLive(cap);
    if Live(cap) != Live(vg) {
      var i :| i in Live(vg) && i !in Live(cap);
      assert cap[i] == 0;
      forall j | 0 <= j < |cap| ensures cap[j] <= 1 {
        assert cap[i] < cap[j] ==> cap[i] + 1 == cap[j];
      }
      SumOfBits(cap);
      SumAtLeastLive(vg);
    }
  }

  lemma {:induction false} SubsetSize(a: set<nat>, b: set<nat>)
    requires a <= b
    ensures |a| <= |b| && (|a| == |b| ==> a == b)
  {
    assert b == a + (b - a);
  }

  // ----- the patch bytes and their enumeration -----

  /** The header of an access point's patch bytes: their length (the parent index plus one byte a child) and the
      parent's index. A length of zero marks an empty group. */
  datatype Patch = Patch(len: nat, parent: nat)

  /** select_vap: allocate, then record every group's length and parent index. */
  method SelectVap(vg: seq<nat>, limit: nat, patches: array<Patch>) returns (ghost cap: seq<nat>)
    requires patches.Length == |vg|
    modifies patches
    ensures Fair(vg, cap, limit)
    ensures forall j | 0 <= j < |vg| ::
              patches[j] == Patch(if cap[j] > 0 then cap[j] + VAP_PARENT else 0, j)
  {
    var capVap := Allocate(vg, limit);
    cap := capVap[..];
    for j := 0 to |vg|
      invariant capVap[..] == cap
      invariant forall i | 0 <= i < j :: patches[i] == Patch(if cap[i] > 0 then cap[i] + VAP_PARENT else 0, i)
    {
      patches[j] := Patch(if capVap[j] > 0 then capVap[j] + VAP_PARENT else 0, j);
    }
  }

  /** The indices of the non-empty groups, in order. */
  function Groups(patches: seq<Patch>): (g: seq<nat>)
    ensures forall k | 0 <= k < |g| :: g[k] < |patches| && patches[g[k]].len > 0
    ensures forall k, l | 0 <= k < l < |g| :: g[k] < g[l]
    ensures forall j | 0 <= j < |patches| && patches[j].len > 0 :: j in g
  {
    if patches == [] then [] else
      var n := |patches| - 1;
      var g := Groups(patches[..n]);
      assert forall j | 0 <= j < n :: patches[..n][j] == patches[j];
      if patches[n].len > 0 then g + [n] else g
  }

  lemma {:induction false} GroupsStep(patches: seq<Patch>, j: nat)
    requires j < |patches|
    ensures Groups(patches[..j + 1]) == Groups(patches[..j]) + if patches[j].len > 0 then [j] else []
  {
    assert patches[..j + 1][..j] == patches[..j];
  }

  method GetNumVaps(patches: seq<Patch>) returns (nv: nat)
    ensures nv == |Groups(patches)|
  {
    nv := 0;
    for j := 0 to |patches|
      invariant nv == |Groups(patches[..j])|
    {
      GroupsStep(patches, j);
      nv := nv + if patches[j].len > 0 then 1 else 0;
    }
    assert patches[..|patches|] == patches;
  }

  /** Finds the idx-th non-empty group; the source answers a null pointer, here |patches|, beyond the last. */
  method GetVapData(patches: seq<Patch>, idx: nat) returns (j: nat)
    ensures j == if idx < |Groups(patches)| then Groups(patches)[idx] else |patches|
  {
    var nvg := 0;
    j := 0;
    while j < |patches|
      invariant 0 <= j <= |patches|
      invariant nvg == |Groups(patches[..j])| <= idx
    {
      assert patches[..j + 1][..j] == patches[..j];
      GroupsPrefix(patches, j + 1);
      if patches[j].len > 0 && nvg == idx {
        return;
      }
      nvg := nvg + if patches[j].len > 0 then 1 else 0;
      j := j + 1;
    }
    assert patches[..|patches|] == patches;
  }

  lemma {:induction false} GroupsPrefix(patches: seq<Patch>, n: nat)
    requires n <= |patches|
    ensures Groups(patches[..n]) <= Groups(patches)
    decreases |patches| - n
  {
    if n < |patches| {
      GroupsPrefix(patches, n + 1);
      assert patches[..n + 1][..n] == patches[..n];
    } else {
      assert patches[..n] == patches;
    }
  }

  /** After select_vap the enumerated groups are exactly min(limit, non-empty groups), each with its parent. */
  lemma {:induction false} EnumerationIsComplete(vg: seq<nat>, cap: seq<nat>, limit: nat, patches: seq<Patch>)
    requires Fair(vg, cap, limit) && |patches| == |vg|
    requires forall j | 0 <= j < |vg| ::
               patches[j] == Patch(if cap[j] > 0 then cap[j] + VAP_PARENT else 0, j)
    ensures |Groups(patches)| == Min(limit, |Live(vg)|)
    ensures forall k | 0 <= k < |Groups(patches)| :: patches[Groups(patches)[k]].parent == Groups(patches)[k]
  {
    var g := Groups(patches);
    GroupsSurvive(vg, cap, limit);
    assert Live(cap) == set k | 0 <= k < |g| :: g[k];
    IncreasingIsSet(g);
  }

  lemma {:induction false} IncreasingIsSet(g: seq<nat>)
    requires forall k, l | 0 <= k < l < |g| :: g[k] < g[l]
    ensures |set k | 0 <= k < |g| :: g[k]| == |g|
  {
    if g != [] {
      var n := |g| - 1;
      IncreasingIsSet(g[..n]);
      var s, t := set k | 0 <= k < n :: g[..n][k], set k | 0 <= k < |g| :: g[k];
      assert t == s + {g[n]};
    }
  }
}
