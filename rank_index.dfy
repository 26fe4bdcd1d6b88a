/** The rank index: for every participant of one side, a table from the other side's IDs to
    their position in that participant's preference list, so that "who is preferred" is a
    single lookup. Both the engine and the verifier build theirs with BuildRankTable. */
module RankIndex {
  import opened Preferences

  /** Fills `rank[x, y]` with the position of `y` in `prefs[x]`, row by row, as the nested
      `for rank, y in enumerate(prefs[x])` loops do over a table initialised to zeros. */
  method BuildRankTable(n: nat, prefs: seq<seq<int>>) returns (rank: array2<int>)
    requires ValidPrefs(n, prefs)
    ensures rank.Length0 == n && rank.Length1 == n
    ensures forall x, i :: 0 <= x < n && 0 <= i < n ==> rank[x, prefs[x][i]] == i
    ensures forall x, y :: 0 <= x < n && 0 <= y < n ==> rank[x, y] == RankOf(prefs[x], y)
  {
    rank := new int[n, n]((_, _) => 0);
    for x := 0 to n
      invariant forall x', y :: 0 <= x' < x && 0 <= y < n ==> rank[x', y] == RankOf(prefs[x'], y)
    {
      PermDistinct(prefs[x], n);
      for i := 0 to n
        invariant forall x', y :: 0 <= x' < x && 0 <= y < n ==> rank[x', y] == RankOf(prefs[x'], y)
        invariant forall j :: 0 <= j < i ==> rank[x, prefs[x][j]] == j
      {
        rank[x, prefs[x][i]] := i;
      }
      RankOfPerm(prefs[x], n);
    }
    forall x | 0 <= x < n
      ensures forall i :: 0 <= i < n ==> rank[x, prefs[x][i]] == i
    {
      RankOfPerm(prefs[x], n);
    }
  }
}
