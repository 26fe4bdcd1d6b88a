/** Preference lists and ranks. A preference list of one participant is a permutation of the
    other side's IDs [0, n), most preferred first; its rank table maps an ID to its position
    (lower rank = more preferred). */
module Preferences {
  import opened Counting

  /** A complete strict preference list over [0, n): n entries, each an ID of the other
      side, and every such ID among them (so none is listed twice). */
  predicate IsPerm(p: seq<int>, n: nat)
  {
    && |p| == n
    && (forall i :: 0 <= i < n ==> 0 <= p[i] < n)
    && (forall y :: 0 <= y < n ==> y in p)
  }

  /** One preference list per participant of a side, each a permutation of the other side. */
  predicate ValidPrefs(n: nat, prefs: seq<seq<int>>)
  {
    |prefs| == n && forall x :: 0 <= x < n ==> IsPerm(prefs[x], n)
  }

  /** The position of `y` in `p` (its first occurrence), or |p| when `y` is not listed. */
  function RankOf(p: seq<int>, y: int): (r: nat)
    ensures r <= |p|
    ensures r < |p| ==> p[r] == y
  {
    if p == [] then 0
    else if p[0] == y then 0
    else 1 + RankOf(p[1..], y)
  }

  /** RankOf finds the first occurrence: nothing before it is `y`, and it falls off the end
      exactly when `y` is not listed. */
  lemma {:induction false} RankOfFirst(p: seq<int>, y: int)
    ensures forall i :: 0 <= i < RankOf(p, y) ==> p[i] != y
    ensures RankOf(p, y) == |p| <==> y !in p
  {
    if p != [] && p[0] != y {
      RankOfFirst(p[1..], y);
      assert p == [p[0]] + p[1..];
    }
  }

  /** A complete preference list lists no ID twice. */
  lemma PermDistinct(p: seq<int>, n: nat)
    requires IsPerm(p, n)
    ensures Distinct(p)
  {
    var ids := set y | y in p;
    assert ids == Range(n);
    RangeCard(n);
    SeqSetCard(p);
  }

  /** The rank of an ID in a permutation is exactly its index, so ranks of distinct IDs differ. */
  lemma RankOfPerm(p: seq<int>, n: nat)
    requires IsPerm(p, n)
    ensures forall i :: 0 <= i < n ==> RankOf(p, p[i]) == i
    ensures forall y :: 0 <= y < n ==> RankOf(p, y) < n && p[RankOf(p, y)] == y
    ensures forall y, z :: 0 <= y < n && 0 <= z < n && RankOf(p, y) == RankOf(p, z) ==> y == z
  {
    PermDistinct(p, n);
    forall y | 0 <= y < n
      ensures RankOf(p, y) < n
    {
      RankOfFirst(p, y);
    }
    forall i | 0 <= i < n
      ensures RankOf(p, p[i]) == i
    {
      RankOfFirst(p, p[i]);
    }
  }
}
