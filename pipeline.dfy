/** The two programs end to end: the matcher writes one line "h s" (1-based) per hospital,
    the verifier reads those lines back into its two dictionaries and judges them. Whatever
    preference lists the engine is given, the verifier accepts its output as valid and
    stable. */
module Pipeline {
  import opened Counting
  import opened Preferences
  import opened Matching
  import opened Engine
  import opened Verifier

  /** The matcher's output, already split into integer tokens: for each hospital h in
      ascending order the line [h + 1, matching[h] + 1]. */
  function MatchingLines(n: nat, m: map<int, int>): (lines: seq<seq<int>>)
    requires forall h :: 0 <= h < n ==> h in m
    ensures |lines| == n
    ensures forall h :: 0 <= h < n ==> |lines[h]| == 2
  {
    seq(n, h requires 0 <= h < n => [h + 1, m[h] + 1])
  }

  /** The matching's pairs, 0-based, in hospital order. */
  function MatchingPairs(n: nat, m: map<int, int>): (ps: seq<(int, int)>)
    requires forall h :: 0 <= h < n ==> h in m
    ensures |ps| == n
    ensures forall h :: 0 <= h < n ==> ps[h].0 == h && ps[h].1 == m[h]
  {
    seq(n, h requires 0 <= h < n => (h, m[h]))
  }

  /** The pairs the verifier reads from the matcher's output are the matching's own pairs,
      0-based again, in hospital order. */
  lemma {:induction false} PairsOfMatchingLines(n: nat, m: map<int, int>)
    requires forall h :: 0 <= h < n ==> h in m
    ensures Pairs(MatchingLines(n, m)) == MatchingPairs(n, m)
  {
    if n > 0 {
      assert MatchingLines(n, m)[..n - 1] == MatchingLines(n - 1, m);
      PairsOfMatchingLines(n - 1, m);
      assert MatchingPairs(n, m) == MatchingPairs(n - 1, m) + [(n - 1, m[n - 1])];
    }
  }

  /** Assigning the pairs hospital by hospital rebuilds the matching: no hospital appears
      twice, so nothing is overwritten. */
  lemma AssignMatchingPairs(n: nat, m: map<int, int>)
    requires m.Keys == Range(n)
    ensures Assign(MatchingPairs(n, m)) == m
  {
    var ps := MatchingPairs(n, m);
    var hs := Assign(ps);
    AssignKeys(ps);
    forall h | h in m
      ensures h in hs && hs[h] == m[h]
    {
      AssignLastWins(ps, h);
    }
    assert hs.Keys == m.Keys;
  }

  /** With no key repeated, every pair survives the assignment. */
  lemma AssignDistinctKeys(ps: seq<(int, int)>)
    requires forall i, j :: 0 <= i < j < |ps| ==> ps[i].0 != ps[j].0
    ensures forall i :: 0 <= i < |ps| ==> ps[i].0 in Assign(ps) && Assign(ps)[ps[i].0] == ps[i].1
  {
    forall i | 0 <= i < |ps|
      ensures ps[i].0 in Assign(ps) && Assign(ps)[ps[i].0] == ps[i].1
    {
      AssignLastWins(ps, i);
    }
  }

  /** An injective matching lists every student once among the swapped pairs. */
  lemma SwappedKeysDistinct(n: nat, m: map<int, int>)
    requires m.Keys == Range(n) && Injective(m)
    ensures var qs := Swap(MatchingPairs(n, m));
            forall i, j :: 0 <= i < j < |qs| ==> qs[i].0 != qs[j].0
  {
    var qs := Swap(MatchingPairs(n, m));
    forall i, j | 0 <= i < j < |qs|
      ensures qs[i].0 != qs[j].0
    {
      assert qs[i].0 == m[i] && qs[j].0 == m[j];
    }
  }

  /** Assigning the swapped pairs undoes the matching in both directions: no student appears
      twice, because the matching is injective. */
  lemma AssignSwappedPairs(n: nat, m: map<int, int>)
    requires m.Keys == Range(n) && Injective(m)
    ensures var sh := Assign(Swap(MatchingPairs(n, m)));
            && (forall h :: h in m ==> m[h] in sh && sh[m[h]] == h)
            && (forall s :: s in sh ==> sh[s] in m && m[sh[s]] == s)
  {
    var qs := Swap(MatchingPairs(n, m));
    SwappedKeysDistinct(n, m);
    AssignDistinctKeys(qs);
    var sh := Assign(qs);
    forall h | h in m
      ensures m[h] in sh && sh[m[h]] == h
    {
      assert qs[h] == (m[h], h);
    }
    SwappedKeysBack(qs, m);
  }

  /** Every student key of the swapped assignment came from some pair (m[h], h). */
  lemma SwappedKeysBack(qs: seq<(int, int)>, m: map<int, int>)
    requires forall i :: 0 <= i < |qs| ==> qs[i].1 == i && i in m && qs[i].0 == m[i]
    requires forall i :: 0 <= i < |qs| ==> qs[i].0 in Assign(qs) && Assign(qs)[qs[i].0] == qs[i].1
    ensures forall s :: s in Assign(qs) ==> Assign(qs)[s] in m && m[Assign(qs)[s]] == s
  {
    AssignKeys(qs);
    forall s | s in Assign(qs)
      ensures Assign(qs)[s] in m && m[Assign(qs)[s]] == s
    {
      var i :| 0 <= i < |qs| && qs[i].0 == s;
    }
  }

  /** Reading the matcher's output back gives exactly the engine's matching and its inverse. */
  lemma ParseMatchingLines(n: nat, m: map<int, int>)
    requires PerfectMatching(n, m)
    ensures Assign(Pairs(MatchingLines(n, m))) == m
    ensures Assign(Swap(Pairs(MatchingLines(n, m)))) == Inverse(m)
  {
    PairsOfMatchingLines(n, m);
    AssignMatchingPairs(n, m);
    AssignSwappedPairs(n, m);
    InverseUnique(m, Assign(Swap(MatchingPairs(n, m))));
  }

  /** Feeding the engine's matching, through its printed form and the verifier's parser,
      into the verifier's decision yields (valid, stable) with the passing report. */
  method MatchThenVerify(n: nat, hospitalPrefs: seq<seq<int>>, studentPrefs: seq<seq<int>>)
    returns (valid: bool, stable: bool, messages: seq<Message>)
    requires ValidPrefs(n, hospitalPrefs) && ValidPrefs(n, studentPrefs)
    ensures valid && stable
    ensures messages == if n == 0 then [EmptyInstance] else [ValidityPassed, StabilityPassed]
  {
    var matching, proposals, trace := GaleShapley(n, hospitalPrefs, studentPrefs);
    var lines := MatchingLines(n, matching);
    var hs, sh, order := ParseMatching(lines);
    ParseMatchingLines(n, matching);
    PerfectIsMutualInverse(n, matching);
    valid, stable, messages := VerifyMatching(n, hospitalPrefs, studentPrefs, hs, order, sh);
  }
}
