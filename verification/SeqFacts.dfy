/** Properties of all elements, or of all ordered pairs of elements, of a sequence under insertion and removal. */
module SeqFacts {

  ghost predicate Each<T>(p: T -> bool, s: seq<T>) {
    forall i | 0 <= i < |s| :: p(s[i])
  }

  ghost predicate Pairwise<T>(rel: (T, T) -> bool, s: seq<T>) {
    forall i, j | 0 <= i < j < |s| :: rel(s[i], s[j])
  }

  function InsertedAt<T>(s: seq<T>, p: nat, b: T): (t: seq<T>)
    requires p <= |s|
    ensures |t| == |s| + 1
  {
    s[..p] + [b] + s[p..]
  }

  function Without<T>(s: seq<T>, i: nat): (t: seq<T>)
    requires i < |s|
    ensures |t| == |s| - 1
  {
    s[..i] + s[i + 1..]
  }

  lemma {:induction false} InsertedIndex<T>(s: seq<T>, p: nat, b: T)
    requires p <= |s|
    ensures InsertedAt(s, p, b)[p] == b
    ensures forall k | 0 <= k < p :: InsertedAt(s, p, b)[k] == s[k]
    ensures forall k | p < k <= |s| :: InsertedAt(s, p, b)[k] == s[k - 1]
    ensures forall k | p <= k < |s| :: InsertedAt(s, p, b)[k + 1] == s[k]
  {}

  lemma {:induction false} WithoutIndex<T>(s: seq<T>, i: nat)
    requires i < |s|
    ensures forall k | 0 <= k < i :: Without(s, i)[k] == s[k]
    ensures forall k | i <= k < |s| - 1 :: Without(s, i)[k] == s[k + 1]
  {}

  lemma {:induction false} InsertEach<T>(prop: T -> bool, s: seq<T>, p: nat, b: T)
    requires Each(prop, s) && p <= |s| && prop(b)
    ensures Each(prop, InsertedAt(s, p, b))
  {}

  lemma {:induction false} WithoutEach<T>(prop: T -> bool, s: seq<T>, i: nat)
    requires Each(prop, s) && i < |s|
    ensures Each(prop, Without(s, i))
  {}

  lemma {:induction false} InsertPairwise<T>(rel: (T, T) -> bool, s: seq<T>, p: nat, b: T)
    requires Pairwise(rel, s) && p <= |s|
    requires forall k | 0 <= k < |s| :: if k < p then rel(s[k], b) else rel(b, s[k])
    ensures Pairwise(rel, InsertedAt(s, p, b))
  {
    InsertedIndex(s, p, b);
  }

  lemma {:induction false} WithoutPairwise<T>(rel: (T, T) -> bool, s: seq<T>, i: nat)
    requires Pairwise(rel, s) && i < |s|
    ensures Pairwise(rel, Without(s, i))
  {
    WithoutIndex(s, i);
  }

  /** How many elements have a property. */
  function Count<T>(prop: T -> bool, s: seq<T>): (n: nat)
    ensures n <= |s|
  {
    if s == [] then 0 else Count(prop, s[..|s| - 1]) + if prop(s[|s| - 1]) then 1 else 0
  }

  lemma {:induction false} CountAppend<T>(prop: T -> bool, s: seq<T>, t: seq<T>)
    ensures Count(prop, s + t) == Count(prop, s) + Count(prop, t)
  {
    if t == [] {
      assert s + t == s;
    } else {
      assert (s + t)[..|s + t| - 1] == s + t[..|t| - 1];
      CountAppend(prop, s, t[..|t| - 1]);
    }
  }

  lemma {:induction false} CountOne<T>(prop: T -> bool, s: seq<T>, b: T)
    ensures Count(prop, s + [b]) == Count(prop, s) + if prop(b) then 1 else 0
  {
    assert (s + [b])[..|s|] == s;
  }

  lemma {:induction false} CountMiddle<T>(prop: T -> bool, s: seq<T>, b: T, t: seq<T>)
    ensures Count(prop, s + [b] + t) == Count(prop, s + t) + if prop(b) then 1 else 0
  {
    CountOne(prop, s, b);
    CountAppend(prop, s + [b], t);
    CountAppend(prop, s, t);
  }

  lemma {:induction false} CountInserted<T>(prop: T -> bool, s: seq<T>, p: nat, b: T)
    requires p <= |s|
    ensures Count(prop, InsertedAt(s, p, b)) == Count(prop, s) + if prop(b) then 1 else 0
  {
    CountMiddle(prop, s[..p], b, s[p..]);
    Rejoin(s, p);
  }

  lemma {:induction false} Rejoin<T>(s: seq<T>, p: nat)
    requires p <= |s|
    ensures s[..p] + s[p..] == s
  {}

  lemma {:induction false} CountSame<T>(prop: T -> bool, s: seq<T>, t: seq<T>)
    requires |s| == |t| && forall i | 0 <= i < |s| :: prop(s[i]) == prop(t[i])
    ensures Count(prop, s) == Count(prop, t)
  {
    if s != [] {
      CountSame(prop, s[..|s| - 1], t[..|t| - 1]);
    }
  }

  lemma {:induction false} InsertedMembers<T>(s: seq<T>, p: nat, b: T)
    requires p <= |s|
    ensures forall x | x in InsertedAt(s, p, b) :: x in s || x == b
  {}

  lemma {:induction false} WithoutMembers<T>(s: seq<T>, i: nat)
    requires i < |s|
    ensures forall x | x in Without(s, i) :: x in s
  {}

  lemma {:induction false} InsertedHolds<T>(s: seq<T>, p: nat, b: T, x: T)
    requires p <= |s|
    ensures x in InsertedAt(s, p, b) <==> x in s || x == b
  {
    InsertedIndex(s, p, b);
    if k :| 0 <= k < |s| && s[k] == x {
      assert InsertedAt(s, p, b)[if k < p then k else k + 1] == x;
    }
  }

  lemma {:induction false} WithoutHolds<T>(s: seq<T>, i: nat, x: T)
    requires i < |s| && forall k | 0 <= k < |s| && k != i :: s[k] != s[i]
    ensures x in Without(s, i) <==> x in s && x != s[i]
  {
    WithoutIndex(s, i);
    if k :| 0 <= k < |s| && s[k] == x && x != s[i] {
      assert Without(s, i)[if k < i then k else k - 1] == x;
    }
  }

  lemma {:induction false} SplitLast<T>(s: seq<T>)
    requires s != []
    ensures s == s[..|s| - 1] + [s[|s| - 1]]
  {}

  lemma {:induction false} EachPrefix<T>(prop: T -> bool, s: seq<T>, n: nat)
    requires Each(prop, s) && n <= |s|
    ensures Each(prop, s[..n])
  {}

  lemma {:induction false} PairwisePrefix<T>(rel: (T, T) -> bool, s: seq<T>, n: nat)
    requires Pairwise(rel, s) && n <= |s|
    ensures Pairwise(rel, s[..n])
  {}

  lemma {:induction false} CountWithout<T>(prop: T -> bool, s: seq<T>, i: nat)
    requires i < |s|
    ensures Count(prop, Without(s, i)) == Count(prop, s) - if prop(s[i]) then 1 else 0
  {
    CountMiddle(prop, s[..i], s[i], s[i + 1..]);
    RejoinMiddle(s, i);
  }

  lemma {:induction false} RejoinMiddle<T>(s: seq<T>, i: nat)
    requires i < |s|
    ensures s[..i] + [s[i]] + s[i + 1..] == s
  {}

  /** The elements that have a property, in order. */
  function Select<T>(prop: T -> bool, s: seq<T>): (r: seq<T>) {
    if s == [] then [] else Select(prop, s[..|s| - 1]) + if prop(s[|s| - 1]) then [s[|s| - 1]] else []
  }

  lemma {:induction false} SelectHas<T>(prop: T -> bool, s: seq<T>)
    ensures |Select(prop, s)| == Count(prop, s) && Each(prop, Select(prop, s))
  {
    if s != [] {
      SelectHas(prop, s[..|s| - 1]);
    }
  }

  lemma {:induction false} SelectAppend<T>(prop: T -> bool, s: seq<T>, t: seq<T>)
    ensures Select(prop, s + t) == Select(prop, s) + Select(prop, t)
  {
    if t == [] {
      assert s + t == s;
    } else {
      assert (s + t)[..|s + t| - 1] == s + t[..|t| - 1];
      SelectAppend(prop, s, t[..|t| - 1]);
    }
  }

  lemma {:induction false} SelectOne<T>(prop: T -> bool, b: T)
    ensures Select(prop, [b]) == if prop(b) then [b] else []
  {
    assert [b][..0] == [];
  }

  lemma {:induction false} SelectLast<T>(prop: T -> bool, s: seq<T>, b: T)
    ensures Select(prop, s + [b]) == Select(prop, s) + if prop(b) then [b] else []
  {
    SelectAppend(prop, s, [b]);
    SelectOne(prop, b);
  }

  lemma {:induction false} SelectNone<T>(prop: T -> bool, s: seq<T>)
    requires forall i | 0 <= i < |s| :: !prop(s[i])
    ensures Select(prop, s) == []
  {
    if s != [] {
      SelectNone(prop, s[..|s| - 1]);
    }
  }

  lemma {:induction false} SelectAll<T>(prop: T -> bool, s: seq<T>)
    requires forall i | 0 <= i < |s| :: prop(s[i])
    ensures Select(prop, s) == s
  {
    if s != [] {
      SelectAll(prop, s[..|s| - 1]);
    }
  }

  lemma {:induction false} SelectMiddle<T>(prop: T -> bool, s: seq<T>, b: T, t: seq<T>)
    ensures Select(prop, s + [b] + t) == Select(prop, s) + (if prop(b) then [b] else []) + Select(prop, t)
  {
    SelectLast(prop, s, b);
    SelectAppend(prop, s + [b], t);
  }

  /** An insertion in front of all elements with the property comes first among them. */
  lemma {:induction false} SelectInsertedFirst<T>(prop: T -> bool, s: seq<T>, p: nat, b: T)
    requires p <= |s| && prop(b) && forall i | 0 <= i < p :: !prop(s[i])
    ensures Select(prop, InsertedAt(s, p, b)) == [b] + Select(prop, s)
  {
    SelectMiddle(prop, s[..p], b, s[p..]);
    SelectNone(prop, s[..p]);
    SelectAppend(prop, s[..p], s[p..]);
    Rejoin(s, p);
  }

  lemma {:induction false} SelectInsertedOther<T>(prop: T -> bool, s: seq<T>, p: nat, b: T)
    requires p <= |s| && !prop(b)
    ensures Select(prop, InsertedAt(s, p, b)) == Select(prop, s)
  {
    SelectMiddle(prop, s[..p], b, s[p..]);
    SelectAppend(prop, s[..p], s[p..]);
    Rejoin(s, p);
  }

  lemma {:induction false} SelectWithoutOther<T>(prop: T -> bool, s: seq<T>, i: nat)
    requires i < |s| && !prop(s[i])
    ensures Select(prop, Without(s, i)) == Select(prop, s)
  {
    SelectMiddle(prop, s[..i], s[i], s[i + 1..]);
    SelectAppend(prop, s[..i], s[i + 1..]);
    RejoinMiddle(s, i);
  }

  /** Elements without the property first, then those with it. */
  lemma {:induction false} SelectSuffix<T>(prop: T -> bool, s: seq<T>, n: nat)
    requires n <= |s|
    requires forall i | 0 <= i < n :: !prop(s[i])
    requires forall i | n <= i < |s| :: prop(s[i])
    ensures Select(prop, s) == s[n..]
  {
    SelectNone(prop, s[..n]);
    SelectAll(prop, s[n..]);
    SelectAppend(prop, s[..n], s[n..]);
    Rejoin(s, n);
  }

  lemma {:induction false} SelectedHave<T>(prop: T -> bool, s: seq<T>, other: T -> bool)
    requires Each(other, s)
    ensures Each(prop, Select(prop, s)) && Each(other, Select(prop, s))
    ensures forall b :: b in Select(prop, s) ==> b in s
  {
    if s != [] {
      assert forall i | 0 <= i < |s| - 1 :: s[..|s| - 1][i] == s[i];
      SelectedHave(prop, s[..|s| - 1], other);
    }
  }

  lemma {:induction false} InsertedMultiset<T>(s: seq<T>, p: nat, b: T)
    requires p <= |s|
    ensures multiset(InsertedAt(s, p, b)) == multiset(s) + multiset{b}
  {
    Rejoin(s, p);
  }

  lemma {:induction false} InsertedSuffix<T>(s: seq<T>, n: nat, p: nat, b: T)
    requires n <= p <= |s|
    ensures InsertedAt(s, p, b)[n..] == InsertedAt(s[n..], p - n, b)
  {
    InsertedIndex(s, p, b);
    InsertedIndex(s[n..], p - n, b);
    var t, u := InsertedAt(s, p, b)[n..], InsertedAt(s[n..], p - n, b);
    forall i | 0 <= i < |t| ensures t[i] == u[i] {}
  }
}
