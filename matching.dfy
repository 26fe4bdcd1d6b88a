/** What a matching is and when it is stable, stated once for the engine and the verifier.
    A matching is given as two dictionaries, hospital -> student and student -> hospital. */
module Matching {
  import opened Counting
  import opened Preferences

  /** Every hospital in [0, n) is matched, to a student in [0, n), and no student twice. */
  predicate PerfectMatching(n: nat, m: map<int, int>)
  {
    m.Keys == Range(n) && (forall h :: h in m ==> 0 <= m[h] < n) && Injective(m)
  }

  /** `hs` and `sh` are mutually inverse bijections between the hospitals and the students. */
  predicate MutualInverse(n: nat, hs: map<int, int>, sh: map<int, int>)
  {
    && hs.Keys == Range(n)
    && sh.Keys == Range(n)
    && (forall h :: h in hs ==> hs[h] in sh && sh[hs[h]] == h)
    && (forall s :: s in sh ==> sh[s] in hs && hs[sh[s]] == s)
  }

  /** The student -> hospital view of an injective hospital -> student dictionary. */
  ghost function Inverse(m: map<int, int>): (r: map<int, int>)
    requires Injective(m)
    ensures r.Keys == m.Values
    ensures forall h :: h in m ==> m[h] in r && r[m[h]] == h
    ensures forall s :: s in r ==> r[s] in m && m[r[s]] == s
  {
    map s | s in m.Values :: ValueHasKey(m, s); var h :| h in m.Keys && m[h] == s; h
  }

  lemma ValueHasKey(m: map<int, int>, s: int)
    requires s in m.Values
    ensures exists h :: h in m.Keys && m[h] == s
  {
    if forall h :: h in m.Keys ==> m[h] != s { assert false; }
  }

  /** `(h, s)` blocks the matching: they are not matched to each other, both have partners,
      and each ranks the other strictly above its current partner. */
  predicate BlockingPair(hp: seq<seq<int>>, sp: seq<seq<int>>, hs: map<int, int>, sh: map<int, int>,
                         h: int, s: int)
  {
    && 0 <= h < |hp| && 0 <= s < |sp|
    && h in hs && s in sh && hs[h] != s
    && RankOf(hp[h], s) < RankOf(hp[h], hs[h])
    && RankOf(sp[s], h) < RankOf(sp[s], sh[s])
  }

  ghost predicate Stable(hp: seq<seq<int>>, sp: seq<seq<int>>, hs: map<int, int>, sh: map<int, int>)
  {
    forall h, s :: !BlockingPair(hp, sp, hs, sh, h, s)
  }

  /** An injective map from [0, n) into [0, n) takes every value in [0, n). */
  lemma ValuesFillRange(n: nat, m: map<int, int>)
    requires PerfectMatching(n, m)
    ensures m.Values == Range(n)
  {
    forall v | v in m.Values
      ensures v in Range(n)
    {
      ValueHasKey(m, v);
    }
    InjectiveValuesCard(m);
    RangeCard(n);
    SubsetCard(m.Values, Range(n));
  }

  lemma KeyValue(m: map<int, int>, k: int)
    requires k in m
    ensures m[k] in m.Values
  {
  }

  /** Two dictionaries that undo each other: the second is the inverse of the first. */
  lemma InverseUnique(hs: map<int, int>, sh: map<int, int>)
    requires Injective(hs)
    requires forall h :: h in hs ==> hs[h] in sh && sh[hs[h]] == h
    requires forall s :: s in sh ==> sh[s] in hs && hs[sh[s]] == s
    ensures sh == Inverse(hs)
  {
    var inv := Inverse(hs);
    forall s | s in sh
      ensures s in inv && inv[s] == sh[s]
    {
      KeyValue(hs, sh[s]);
    }
    assert sh.Keys == inv.Keys;
  }

  /** A perfect matching, paired with its inverse, is a pair of mutually inverse bijections
      over [0, n): every student is matched too. */
  lemma PerfectIsMutualInverse(n: nat, m: map<int, int>)
    requires PerfectMatching(n, m)
    ensures MutualInverse(n, m, Inverse(m))
  {
    ValuesFillRange(n, m);
  }

  /** Conversely, mutually inverse dictionaries make a perfect matching and each is the
      other's inverse. */
  lemma MutualInverseIsPerfect(n: nat, hs: map<int, int>, sh: map<int, int>)
    requires MutualInverse(n, hs, sh)
    ensures PerfectMatching(n, hs) && sh == Inverse(hs)
  {
    LeftInverseInjective(hs, sh);
    InverseUnique(hs, sh);
  }

  /** A dictionary with a left inverse maps no two keys to the same value. */
  lemma LeftInverseInjective(hs: map<int, int>, sh: map<int, int>)
    requires forall h :: h in hs ==> hs[h] in sh && sh[hs[h]] == h
    ensures Injective(hs)
  {
    forall a, b | a in hs && b in hs && hs[a] == hs[b]
      ensures a == b
    {
      assert sh[hs[a]] == a && sh[hs[b]] == b;
    }
  }
}
