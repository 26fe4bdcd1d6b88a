/** The matching verifier: given both preference lists and a candidate matching, read as a
    hospital -> student and a student -> hospital dictionary, it first collects every
    structural violation (validity), and only for a valid matching lists the blocking pairs
    (stability). */
module Verifier {
  import opened Counting
  import opened Preferences
  import opened Matching
  import RankIndex

  datatype Side = Hospital | Student

  /** One validity violation, with 0-based IDs (the report prints each ID plus one). */
  datatype Violation =
    | WrongCount(side: Side, found: nat)              // the dictionary keyed by `side` has `found` entries, not n
    | Unmatched(side: Side, id: int)                  // `id` in [0, n) is not a key of its dictionary
    | RepeatedPartner(side: Side)                     // IDs of `side` occur twice among the other dictionary's values
    | OutOfRange(side: Side, id: int)                 // an ID of `side` in hospital -> student lies outside [0, n)
    | Inconsistent(hospital: int, student: int, otherHospital: int)

  /** `order` lists each key of `m` once: the order in which the dictionary was filled, which
      is the order its items are visited in. */
  ghost predicate KeyOrder(order: seq<int>, m: map<int, int>)
  {
    && Distinct(order)
    && (forall i :: 0 <= i < |order| ==> order[i] in m)
    && (forall k :: k in m ==> k in order)
  }

  // ---------------------------------------------------------------------------------------
  // Validity

  /** The IDs in [0, n) that are not keys of `m`, in increasing order. */
  function MissingIds(side: Side, m: map<int, int>, n: int): (r: seq<Violation>)
    ensures forall i :: 0 <= i < |r| ==> r[i].Unmatched? && r[i].side == side && 0 <= r[i].id < n
    decreases n
  {
    if n <= 0 then []
    else MissingIds(side, m, n - 1) + (if n - 1 in m then [] else [Unmatched(side, n - 1)])
  }

  /** Missing-ID errors whose IDs strictly increase. */
  predicate IncreasingIds(r: seq<Violation>)
    requires forall i :: 0 <= i < |r| ==> r[i].Unmatched?
  {
    forall i, j :: 0 <= i < j < |r| ==> r[i].id < r[j].id
  }

  /** An `Unmatched(side, id)` error is produced exactly for each id in [0, n) that is not a
      key, in increasing id order. */
  lemma {:induction false} MissingIdsMembers(side: Side, m: map<int, int>, n: int)
    ensures forall id :: Unmatched(side, id) in MissingIds(side, m, n) <==> 0 <= id < n && id !in m
    ensures IncreasingIds(MissingIds(side, m, n))
    decreases n
  {
    if n > 0 {
      MissingIdsMembers(side, m, n - 1);
      var prefix := MissingIds(side, m, n - 1);
      var r := MissingIds(side, m, n);
      assert r == prefix + (if n - 1 in m then [] else [Unmatched(side, n - 1)]);
      forall i, j | 0 <= i < j < |r|
        ensures r[i].id < r[j].id
      {
        assert r[i] == prefix[i];
        if j < |prefix| {
          assert r[j] == prefix[j];
        } else {
          assert r[j] == Unmatched(side, n - 1) && prefix[i].id < n - 1;
        }
      }
    }
  }

  /** The out-of-range errors of one pass over the items of `hs` in `order`: for each item,
      the hospital ID if it is outside [0, n), then the student ID if it is. */
  function RangeErrors(n: nat, hs: map<int, int>, order: seq<int>): (r: seq<Violation>)
    requires forall i :: 0 <= i < |order| ==> order[i] in hs
    ensures forall i :: 0 <= i < |r| ==> r[i].OutOfRange?
  {
    if order == [] then []
    else
      var h := order[|order| - 1];
      RangeErrors(n, hs, order[..|order| - 1])
      + (if 0 <= h < n then [] else [OutOfRange(Hospital, h)])
      + (if 0 <= hs[h] < n then [] else [OutOfRange(Student, hs[h])])
  }

  /** A hospital ID is reported out of range exactly when it is a key outside [0, n); a
      student ID exactly when some hospital maps to it and it lies outside [0, n). */
  lemma RangeErrorsMembers(n: nat, hs: map<int, int>, order: seq<int>)
    requires forall i :: 0 <= i < |order| ==> order[i] in hs
    ensures forall h :: OutOfRange(Hospital, h) in RangeErrors(n, hs, order) <==> h in order && !(0 <= h < n)
    ensures forall s :: OutOfRange(Student, s) in RangeErrors(n, hs, order) <==>
              !(0 <= s < n) && exists i :: 0 <= i < |order| && hs[order[i]] == s
  {
    HospitalRangeErrors(n, hs, order);
    StudentRangeErrors(n, hs, order);
  }

  lemma {:induction false} HospitalRangeErrors(n: nat, hs: map<int, int>, order: seq<int>)
    requires forall i :: 0 <= i < |order| ==> order[i] in hs
    ensures forall h :: OutOfRange(Hospital, h) in RangeErrors(n, hs, order) <==> h in order && !(0 <= h < n)
  {
    if order != [] {
      var init, last := order[..|order| - 1], order[|order| - 1];
      HospitalRangeErrors(n, hs, init);
      assert order == init + [last];
    }
  }

  lemma {:induction false} StudentRangeErrors(n: nat, hs: map<int, int>, order: seq<int>)
    requires forall i :: 0 <= i < |order| ==> order[i] in hs
    ensures forall s :: OutOfRange(Student, s) in RangeErrors(n, hs, order) <==>
              !(0 <= s < n) && exists i :: 0 <= i < |order| && hs[order[i]] == s
  {
    if order != [] {
      var init, last := order[..|order| - 1], order[|order| - 1];
      StudentRangeErrors(n, hs, init);
      forall s
        ensures OutOfRange(Student, s) in RangeErrors(n, hs, order) <==>
                !(0 <= s < n) && exists i :: 0 <= i < |order| && hs[order[i]] == s
      {
        var before := exists i :: 0 <= i < |init| && hs[init[i]] == s;
        if before {
          var i :| 0 <= i < |init| && hs[init[i]] == s;
          assert hs[order[i]] == s;
        }
        if hs[last] == s {
          assert hs[order[|order| - 1]] == s;
        }
        if exists i :: 0 <= i < |order| && hs[order[i]] == s {
          var i :| 0 <= i < |order| && hs[order[i]] == s;
          if i < |init| {
            assert hs[init[i]] == s;
          }
        }
      }
    }
  }

  /** One error per item `h -> s` of `hs`, in `order`, whose student is a key of `sh` that
      maps back to another hospital. */
  function Inconsistencies(hs: map<int, int>, order: seq<int>, sh: map<int, int>): (r: seq<Violation>)
    requires forall i :: 0 <= i < |order| ==> order[i] in hs
    ensures forall v :: v in r <==>
              && v.Inconsistent? && v.hospital in order
              && v.student == hs[v.hospital] && v.student in sh
              && v.otherHospital == sh[v.student] && v.otherHospital != v.hospital
  {
    if order == [] then []
    else
      var h := order[|order| - 1];
      Inconsistencies(hs, order[..|order| - 1], sh)
      + (if hs[h] in sh && sh[hs[h]] != h then [Inconsistent(h, hs[h], sh[hs[h]])] else [])
  }

  /** Every validity violation, in the order the checks run; each check runs whatever the
      earlier ones found. */
  function ValidityErrors(n: nat, hs: map<int, int>, order: seq<int>, sh: map<int, int>): seq<Violation>
    requires forall i :: 0 <= i < |order| ==> order[i] in hs
  {
    (if |hs| != n then [WrongCount(Hospital, |hs|)] else [])
    + (if |sh| != n then [WrongCount(Student, |sh|)] else [])
    + MissingIds(Hospital, hs, n)
    + MissingIds(Student, sh, n)
    + (if |hs.Values| != |hs| then [RepeatedPartner(Student)] else [])
    + (if |sh.Values| != |sh| then [RepeatedPartner(Hospital)] else [])
    + RangeErrors(n, hs, order)
    + Inconsistencies(hs, order, sh)
  }

  lemma RangeErrorsNext(n: nat, hs: map<int, int>, order: seq<int>, i: int)
    requires 0 <= i < |order| && forall j :: 0 <= j < |order| ==> order[j] in hs
    ensures RangeErrors(n, hs, order[..i + 1]) ==
            RangeErrors(n, hs, order[..i])
            + (if 0 <= order[i] < n then [] else [OutOfRange(Hospital, order[i])])
            + (if 0 <= hs[order[i]] < n then [] else [OutOfRange(Student, hs[order[i]])])
  {
    assert order[..i + 1][..i] == order[..i];
  }

  lemma InconsistenciesNext(hs: map<int, int>, order: seq<int>, sh: map<int, int>, i: int)
    requires 0 <= i < |order| && forall j :: 0 <= j < |order| ==> order[j] in hs
    ensures Inconsistencies(hs, order[..i + 1], sh) ==
            Inconsistencies(hs, order[..i], sh)
            + (if hs[order[i]] in sh && sh[hs[order[i]]] != order[i]
               then [Inconsistent(order[i], hs[order[i]], sh[hs[order[i]]])] else [])
  {
    assert order[..i + 1][..i] == order[..i];
  }

  lemma AppendAssoc<T>(a: seq<T>, b: seq<T>, c: seq<T>)
    ensures (a + b) + c == a + (b + c)
  {
  }

  /** The `for h in range(n)` scan: appends an error for each ID in [0, n) missing from `m`. */
  method AppendMissing(errors: seq<Violation>, side: Side, m: map<int, int>, n: nat)
    returns (out: seq<Violation>)
    ensures out == errors + MissingIds(side, m, n)
  {
    out := errors;
    for id := 0 to n
      invariant out == errors + MissingIds(side, m, id)
    {
      AppendAssoc(errors, MissingIds(side, m, id), if id in m then [] else [Unmatched(side, id)]);
      if id !in m {
        out := out + [Unmatched(side, id)];
      }
    }
  }

  /** The range scan over the items of `hs`: the hospital ID, then the student ID, of each
      item whose ID lies outside [0, n). */
  method AppendRangeErrors(errors: seq<Violation>, n: nat, hs: map<int, int>, order: seq<int>)
    returns (out: seq<Violation>)
    requires forall j :: 0 <= j < |order| ==> order[j] in hs
    ensures out == errors + RangeErrors(n, hs, order)
  {
    out := errors;
    for i := 0 to |order|
      invariant out == errors + RangeErrors(n, hs, order[..i])
    {
      var h := order[i];
      var s := hs[h];
      RangeErrorsNext(n, hs, order, i);
      ghost var hErr := if 0 <= h < n then [] else [OutOfRange(Hospital, h)];
      ghost var sErr := if 0 <= s < n then [] else [OutOfRange(Student, s)];
      AppendAssoc(errors, RangeErrors(n, hs, order[..i]), hErr);
      AppendAssoc(errors, RangeErrors(n, hs, order[..i]) + hErr, sErr);
      if h < 0 || h >= n {
        out := out + [OutOfRange(Hospital, h)];
      }
      if s < 0 || s >= n {
        out := out + [OutOfRange(Student, s)];
      }
    }
    assert order[..|order|] == order;
  }

  /** The consistency scan over the items `h -> s` of `hs`. */
  method AppendInconsistencies(errors: seq<Violation>, hs: map<int, int>, order: seq<int>, sh: map<int, int>)
    returns (out: seq<Violation>)
    requires forall j :: 0 <= j < |order| ==> order[j] in hs
    ensures out == errors + Inconsistencies(hs, order, sh)
  {
    out := errors;
    for i := 0 to |order|
      invariant out == errors + Inconsistencies(hs, order[..i], sh)
    {
      var h := order[i];
      var s := hs[h];
      InconsistenciesNext(hs, order, sh, i);
      AppendAssoc(errors, Inconsistencies(hs, order[..i], sh), if s in sh && sh[s] != h then [Inconsistent(h, s, sh[s])] else []);
      if s in sh && sh[s] != h {
        out := out + [Inconsistent(h, s, sh[s])];
      }
    }
    assert order[..|order|] == order;
  }

  /** Runs every validity check in turn, each whatever the earlier ones found, and reports
      validity exactly when none found anything. */
  method CheckValidity(n: nat, hs: map<int, int>, order: seq<int>, sh: map<int, int>)
    returns (valid: bool, errors: seq<Violation>)
    requires KeyOrder(order, hs)
    ensures errors == ValidityErrors(n, hs, order, sh)
    ensures valid <==> errors == []
  {
    errors := [];
    if |hs| != n {
      errors := errors + [WrongCount(Hospital, |hs|)];
    }
    if |sh| != n {
      errors := errors + [WrongCount(Student, |sh|)];
    }
    ghost var counts := (if |hs| != n then [WrongCount(Hospital, |hs|)] else [])
                        + (if |sh| != n then [WrongCount(Student, |sh|)] else []);
    assert errors == counts;
    errors := AppendMissing(errors, Hospital, hs, n);
    errors := AppendMissing(errors, Student, sh, n);
    ghost var missing := errors;
    if |hs.Values| != |hs| {
      errors := errors + [RepeatedPartner(Student)];
    }
    assert errors == missing + (if |hs.Values| != |hs| then [RepeatedPartner(Student)] else []);
    ghost var repeatedStudents := errors;
    if |sh.Values| != |sh| {
      errors := errors + [RepeatedPartner(Hospital)];
    }
    assert errors == repeatedStudents + (if |sh.Values| != |sh| then [RepeatedPartner(Hospital)] else []);
    errors := AppendRangeErrors(errors, n, hs, order);
    errors := AppendInconsistencies(errors, hs, order, sh);
    valid := |errors| == 0;
  }

  /** The conditions the validity checks test, one conjunct per check. */
  predicate PassesChecks(n: nat, hs: map<int, int>, sh: map<int, int>)
  {
    && |hs| == n && |sh| == n
    && (forall h :: 0 <= h < n ==> h in hs)
    && (forall s :: 0 <= s < n ==> s in sh)
    && |hs.Values| == |hs| && |sh.Values| == |sh|
    && (forall h :: h in hs ==> 0 <= h < n && 0 <= hs[h] < n)
    && (forall h :: h in hs && hs[h] in sh ==> sh[hs[h]] == h)
  }

  lemma MissingIdsEmpty(side: Side, m: map<int, int>, n: nat)
    ensures MissingIds(side, m, n) == [] <==> forall id :: 0 <= id < n ==> id in m
  {
    var r := MissingIds(side, m, n);
    MissingIdsMembers(side, m, n);
    if r != [] {
      assert r[0] in r;
    }
  }

  lemma RangeErrorsEmpty(n: nat, hs: map<int, int>, order: seq<int>)
    requires KeyOrder(order, hs)
    ensures RangeErrors(n, hs, order) == [] <==> forall h :: h in hs ==> 0 <= h < n && 0 <= hs[h] < n
  {
    var r := RangeErrors(n, hs, order);
    RangeErrorsMembers(n, hs, order);
    if r != [] {
      assert r[0] in r;
      match r[0]
      case OutOfRange(side, id) =>
        if side == Student {
          var i :| 0 <= i < |order| && hs[order[i]] == id;
        }
    }
    forall h | h in hs && r == []
      ensures 0 <= h < n && 0 <= hs[h] < n
    {
      var i :| 0 <= i < |order| && order[i] == h;
      assert OutOfRange(Student, hs[h]) !in r;
    }
  }

  lemma InconsistenciesEmpty(hs: map<int, int>, order: seq<int>, sh: map<int, int>)
    requires KeyOrder(order, hs)
    ensures Inconsistencies(hs, order, sh) == [] <==> forall h :: h in hs && hs[h] in sh ==> sh[hs[h]] == h
  {
    var r := Inconsistencies(hs, order, sh);
    if r != [] {
      assert r[0] in r;
    }
    forall h | h in hs && hs[h] in sh && r == []
      ensures sh[hs[h]] == h
    {
      assert Inconsistent(h, hs[h], sh[hs[h]]) !in r;
    }
  }

  /** The error list is empty exactly when every check passes. */
  lemma NoErrorsIffPasses(n: nat, hs: map<int, int>, order: seq<int>, sh: map<int, int>)
    requires KeyOrder(order, hs)
    ensures ValidityErrors(n, hs, order, sh) == [] <==> PassesChecks(n, hs, sh)
  {
    MissingIdsEmpty(Hospital, hs, n);
    MissingIdsEmpty(Student, sh, n);
    RangeErrorsEmpty(n, hs, order);
    InconsistenciesEmpty(hs, order, sh);
  }

  /** A dictionary whose keys are [0, n) has n entries. */
  lemma RangeKeysCard(n: nat, m: map<int, int>)
    requires m.Keys == Range(n)
    ensures |m| == n
  {
    RangeCard(n);
    assert |m| == |m.Keys|;
  }

  /** A dictionary with n entries whose keys include [0, n) has exactly the keys [0, n). */
  lemma CoveringKeys(n: nat, m: map<int, int>)
    requires |m| == n && forall k :: 0 <= k < n ==> k in m
    ensures m.Keys == Range(n)
  {
    RangeCard(n);
    assert |m| == |m.Keys|;
    SubsetCard(Range(n), m.Keys);
  }

  /** A dictionary with a left inverse has as many distinct values as keys. */
  lemma LeftInverseValuesCard(hs: map<int, int>, sh: map<int, int>)
    requires forall h :: h in hs ==> hs[h] in sh && sh[hs[h]] == h
    ensures |hs.Values| == |hs|
  {
    LeftInverseInjective(hs, sh);
    InjectiveValuesCard(hs);
  }

  lemma MutualInverseMeansPasses(n: nat, hs: map<int, int>, sh: map<int, int>)
    requires MutualInverse(n, hs, sh)
    ensures PassesChecks(n, hs, sh)
  {
    RangeKeysCard(n, hs);
    RangeKeysCard(n, sh);
    LeftInverseValuesCard(hs, sh);
    LeftInverseValuesCard(sh, hs);
  }

  /** n distinct partners drawn from [0, n) are all of [0, n). */
  lemma DistinctValuesFill(n: nat, hs: map<int, int>)
    requires hs.Keys == Range(n) && (forall h :: h in hs ==> 0 <= hs[h] < n) && |hs.Values| == |hs|
    ensures hs.Values == Range(n)
  {
    InjectiveValuesCard(hs);
    ValuesFillRange(n, hs);
  }

  /** Every student is some hospital's partner, and then maps back to it. */
  lemma StudentsMapBack(n: nat, hs: map<int, int>, sh: map<int, int>)
    requires hs.Keys == Range(n) && (forall h :: h in hs ==> 0 <= hs[h] < n) && |hs.Values| == |hs|
    requires sh.Keys == Range(n)
    requires forall h :: h in hs ==> sh[hs[h]] == h
    ensures forall s :: s in sh ==> sh[s] in hs && hs[sh[s]] == s
  {
    DistinctValuesFill(n, hs);
    forall s | s in sh
      ensures sh[s] in hs && hs[sh[s]] == s
    {
      assert s in hs.Values;
      ValueHasKey(hs, s);
      var h :| h in hs.Keys && hs[h] == s;
    }
  }

  lemma PassesMeansMutualInverse(n: nat, hs: map<int, int>, sh: map<int, int>)
    requires PassesChecks(n, hs, sh)
    ensures MutualInverse(n, hs, sh)
  {
    assert hs.Keys == Range(n);
    CoveringKeys(n, sh);
    StudentsMapBack(n, hs, sh);
  }

  /** The validity checks pass exactly when the two dictionaries are mutually inverse
      bijections over [0, n). */
  lemma ValidityIff(n: nat, hs: map<int, int>, order: seq<int>, sh: map<int, int>)
    requires KeyOrder(order, hs)
    ensures ValidityErrors(n, hs, order, sh) == [] <==> MutualInverse(n, hs, sh)
  {
    NoErrorsIffPasses(n, hs, order, sh);
    if MutualInverse(n, hs, sh) {
      MutualInverseMeansPasses(n, hs, sh);
    }
    if PassesChecks(n, hs, sh) {
      PassesMeansMutualInverse(n, hs, sh);
    }
  }

  /** Every kind of violation present in the dictionaries is reported, whatever else is. */
  lemma ValidityErrorsComplete(n: nat, hs: map<int, int>, order: seq<int>, sh: map<int, int>)
    requires KeyOrder(order, hs)
    ensures forall h :: 0 <= h < n && h !in hs ==> Unmatched(Hospital, h) in ValidityErrors(n, hs, order, sh)
    ensures forall s :: 0 <= s < n && s !in sh ==> Unmatched(Student, s) in ValidityErrors(n, hs, order, sh)
    ensures !Injective(hs) ==> RepeatedPartner(Student) in ValidityErrors(n, hs, order, sh)
    ensures !Injective(sh) ==> RepeatedPartner(Hospital) in ValidityErrors(n, hs, order, sh)
    ensures forall h :: h in hs && !(0 <= h < n) ==> OutOfRange(Hospital, h) in ValidityErrors(n, hs, order, sh)
    ensures forall h :: h in hs && !(0 <= hs[h] < n) ==> OutOfRange(Student, hs[h]) in ValidityErrors(n, hs, order, sh)
    ensures forall h :: h in hs && hs[h] in sh && sh[hs[h]] != h ==>
              Inconsistent(h, hs[h], sh[hs[h]]) in ValidityErrors(n, hs, order, sh)
  {
    InjectiveValuesCard(hs);
    InjectiveValuesCard(sh);
    MissingIdsMembers(Hospital, hs, n);
    MissingIdsMembers(Student, sh, n);
    RangeErrorsMembers(n, hs, order);
    forall h | h in hs && !(0 <= hs[h] < n)
      ensures OutOfRange(Student, hs[h]) in RangeErrors(n, hs, order)
    {
      var i :| 0 <= i < |order| && order[i] == h;
    }
  }

  // ---------------------------------------------------------------------------------------
  // Stability

  /** Lexicographic order on (hospital, student) pairs. */
  predicate PairLess(a: (int, int), b: (int, int))
  {
    a.0 < b.0 || (a.0 == b.0 && a.1 < b.1)
  }

  predicate StrictlySorted(ps: seq<(int, int)>)
  {
    forall i, j :: 0 <= i < j < |ps| ==> PairLess(ps[i], ps[j])
  }

  /** Appending pairs of a later hospital keeps the order. */
  lemma SortedAppendRow(a: seq<(int, int)>, b: seq<(int, int)>, h: int)
    requires StrictlySorted(a) && StrictlySorted(b)
    requires forall i :: 0 <= i < |a| ==> a[i].0 < h
    requires forall j :: 0 <= j < |b| ==> b[j].0 == h
    ensures StrictlySorted(a + b)
  {
  }

  /** The blocking pairs of hospital `h` with students below `k`, reported 1-based as
      (h + 1, s + 1), in increasing student order. */
  function RowPairs(hp: seq<seq<int>>, sp: seq<seq<int>>, hs: map<int, int>, sh: map<int, int>,
                    h: int, k: int): (r: seq<(int, int)>)
    ensures forall i :: 0 <= i < |r| ==> r[i].0 == h + 1 && 1 <= r[i].1 <= k
    decreases k
  {
    if k <= 0 then []
    else
      RowPairs(hp, sp, hs, sh, h, k - 1)
      + (if BlockingPair(hp, sp, hs, sh, h, k - 1) then [(h + 1, k)] else [])
  }

  /** The blocking pairs of the hospitals below `k`, hospital by hospital: the pairs the
      nested scan reports. */
  function BlockingPairs(hp: seq<seq<int>>, sp: seq<seq<int>>, hs: map<int, int>, sh: map<int, int>,
                         k: int): (r: seq<(int, int)>)
    ensures forall i :: 0 <= i < |r| ==> 1 <= r[i].0 <= k
    decreases k
  {
    if k <= 0 then []
    else BlockingPairs(hp, sp, hs, sh, k - 1) + RowPairs(hp, sp, hs, sh, k - 1, |sp|)
  }

  lemma {:induction false} RowPairsMembers(hp: seq<seq<int>>, sp: seq<seq<int>>, hs: map<int, int>, sh: map<int, int>,
                                           h: int, k: int)
    ensures forall s :: (h + 1, s + 1) in RowPairs(hp, sp, hs, sh, h, k) <==> 0 <= s < k && BlockingPair(hp, sp, hs, sh, h, s)
    decreases k
  {
    if k > 0 {
      RowPairsMembers(hp, sp, hs, sh, h, k - 1);
      var prefix := RowPairs(hp, sp, hs, sh, h, k - 1);
      var last := if BlockingPair(hp, sp, hs, sh, h, k - 1) then [(h + 1, k)] else [];
      assert RowPairs(hp, sp, hs, sh, h, k) == prefix + last;
      forall s
        ensures (h + 1, s + 1) in prefix + last <==> 0 <= s < k && BlockingPair(hp, sp, hs, sh, h, s)
      {
        assert (h + 1, s + 1) in prefix + last <==> (h + 1, s + 1) in prefix || (h + 1, s + 1) in last;
        if s == k - 1 {
          assert (h + 1, s + 1) !in prefix;
        } else {
          assert (h + 1, s + 1) !in last;
        }
      }
    } else {
      assert RowPairs(hp, sp, hs, sh, h, k) == [];
    }
  }

  /** A pair is reported exactly when it blocks: (h + 1, s + 1) is listed iff hospital h < k
      and student s block the matching. */
  lemma {:induction false} BlockingPairsMembers(hp: seq<seq<int>>, sp: seq<seq<int>>, hs: map<int, int>, sh: map<int, int>,
                                                k: int)
    ensures forall h, s :: (h + 1, s + 1) in BlockingPairs(hp, sp, hs, sh, k) <==> h < k && BlockingPair(hp, sp, hs, sh, h, s)
    decreases k
  {
    if k > 0 {
      BlockingPairsMembers(hp, sp, hs, sh, k - 1);
      RowPairsMembers(hp, sp, hs, sh, k - 1, |sp|);
      var prefix := BlockingPairs(hp, sp, hs, sh, k - 1);
      var row := RowPairs(hp, sp, hs, sh, k - 1, |sp|);
      assert BlockingPairs(hp, sp, hs, sh, k) == prefix + row;
      forall h, s
        ensures (h + 1, s + 1) in prefix + row <==> h < k && BlockingPair(hp, sp, hs, sh, h, s)
      {
        assert (h + 1, s + 1) in prefix + row <==> (h + 1, s + 1) in prefix || (h + 1, s + 1) in row;
        if (h + 1, s + 1) in row {
          var i :| 0 <= i < |row| && row[i] == (h + 1, s + 1);
          assert h == k - 1;
        }
      }
    } else {
      assert BlockingPairs(hp, sp, hs, sh, k) == [];
    }
  }

  lemma {:induction false} RowPairsSorted(hp: seq<seq<int>>, sp: seq<seq<int>>, hs: map<int, int>, sh: map<int, int>,
                                          h: int, k: int)
    ensures StrictlySorted(RowPairs(hp, sp, hs, sh, h, k))
    decreases k
  {
    if k > 0 {
      RowPairsSorted(hp, sp, hs, sh, h, k - 1);
    }
  }

  /** The reported pairs come in strictly increasing lexicographic order, so none twice. */
  lemma {:induction false} BlockingPairsSorted(hp: seq<seq<int>>, sp: seq<seq<int>>, hs: map<int, int>, sh: map<int, int>,
                                               k: int)
    ensures StrictlySorted(BlockingPairs(hp, sp, hs, sh, k))
    decreases k
  {
    if k > 0 {
      BlockingPairsSorted(hp, sp, hs, sh, k - 1);
      RowPairsSorted(hp, sp, hs, sh, k - 1, |sp|);
      SortedAppendRow(BlockingPairs(hp, sp, hs, sh, k - 1), RowPairs(hp, sp, hs, sh, k - 1, |sp|), k);
    }
  }

  /** Scanning one more student of hospital h appends (h + 1, s + 1) exactly when it blocks. */
  lemma ScanStep(hp: seq<seq<int>>, sp: seq<seq<int>>, hs: map<int, int>, sh: map<int, int>, h: int, s: int)
    requires 0 <= s
    ensures BlockingPairs(hp, sp, hs, sh, h) + RowPairs(hp, sp, hs, sh, h, s + 1) ==
            BlockingPairs(hp, sp, hs, sh, h) + RowPairs(hp, sp, hs, sh, h, s)
            + (if BlockingPair(hp, sp, hs, sh, h, s) then [(h + 1, s + 1)] else [])
  {
    AppendAssoc(BlockingPairs(hp, sp, hs, sh, h), RowPairs(hp, sp, hs, sh, h, s),
                if BlockingPair(hp, sp, hs, sh, h, s) then [(h + 1, s + 1)] else []);
  }

  /** Scans every (h, s) pair and lists those that block, as the source's nested loops do
      over both rank tables. */
  method CheckStability(n: nat, hp: seq<seq<int>>, sp: seq<seq<int>>, hs: map<int, int>, sh: map<int, int>)
    returns (stable: bool, pairs: seq<(int, int)>)
    requires ValidPrefs(n, hp) && ValidPrefs(n, sp)
    requires forall h :: 0 <= h < n && h in hs ==> 0 <= hs[h] < n
    requires forall s :: 0 <= s < n && s in sh ==> 0 <= sh[s] < n
    ensures pairs == BlockingPairs(hp, sp, hs, sh, n)
    ensures stable <==> pairs == []
  {
    var hospitalRank := RankIndex.BuildRankTable(n, hp);
    var studentRank := RankIndex.BuildRankTable(n, sp);
    pairs := [];
    for h := 0 to n
      invariant pairs == BlockingPairs(hp, sp, hs, sh, h)
      modifies {}
    {
      for s := 0 to n
        invariant pairs == BlockingPairs(hp, sp, hs, sh, h) + RowPairs(hp, sp, hs, sh, h, s)
        modifies {}
      {
        ghost var blocks := BlockingPair(hp, sp, hs, sh, h, s);
        ScanStep(hp, sp, hs, sh, h, s);
        if h in hs && hs[h] == s {
          assert !blocks;
          continue;
        }
        if h !in hs || s !in sh {
          assert !blocks;
          continue;
        }
        var currentStudent := hs[h];
        var currentHospital := sh[s];
        var hospitalPrefers := hospitalRank[h, s] < hospitalRank[h, currentStudent];
        var studentPrefers := studentRank[s, h] < studentRank[s, currentHospital];
        assert hospitalRank[h, s] == RankOf(hp[h], s);
        assert hospitalRank[h, currentStudent] == RankOf(hp[h], currentStudent);
        assert studentRank[s, h] == RankOf(sp[s], h);
        assert studentRank[s, currentHospital] == RankOf(sp[s], currentHospital);
        assert blocks <==> hospitalPrefers && studentPrefers;
        if hospitalPrefers && studentPrefers {
          pairs := pairs + [(h + 1, s + 1)];
        }
      }
    }
    stable := |pairs| == 0;
  }

  /** The scan finds no blocking pair exactly when the matching is stable. */
  lemma NoBlockingPairsIffStable(n: nat, hp: seq<seq<int>>, sp: seq<seq<int>>, hs: map<int, int>, sh: map<int, int>)
    requires |hp| == n && |sp| == n
    ensures BlockingPairs(hp, sp, hs, sh, n) == [] <==> Stable(hp, sp, hs, sh)
  {
    var r := BlockingPairs(hp, sp, hs, sh, n);
    BlockingPairsMembers(hp, sp, hs, sh, n);
    if r != [] {
      var h, s := r[0].0 - 1, r[0].1 - 1;
      assert (h + 1, s + 1) == r[0];
      assert (h + 1, s + 1) in r;
      assert BlockingPair(hp, sp, hs, sh, h, s);
    }
    if !Stable(hp, sp, hs, sh) {
      var h, s :| BlockingPair(hp, sp, hs, sh, h, s);
      assert (h + 1, s + 1) in r;
    }
  }

  // ---------------------------------------------------------------------------------------
  // The verdict

  /** One line of the report, without its wording. */
  datatype Message =
    | EmptyInstance                         // n = 0: valid and stable without a matching
    | Invalid(violation: Violation)
    | ValidityPassed
    | StabilityFailed
    | BlockingHeader
    | Blocking(hospital: int, student: int) // 1-based, as reported by CheckStability
    | StabilityPassed

  /** One report line per violation, in the order the checks found them. */
  function InvalidReport(errors: seq<Violation>): (r: seq<Message>)
    ensures |r| == |errors|
    ensures forall i :: 0 <= i < |errors| ==> r[i] == Invalid(errors[i])
  {
    if errors == [] then [] else InvalidReport(errors[..|errors| - 1]) + [Invalid(errors[|errors| - 1])]
  }

  /** One report line per blocking pair, in the order the pairs were found. */
  function BlockingReport(pairs: seq<(int, int)>): (r: seq<Message>)
    ensures |r| == |pairs|
    ensures forall i :: 0 <= i < |pairs| ==> r[i] == Blocking(pairs[i].0, pairs[i].1)
  {
    if pairs == [] then [] else BlockingReport(pairs[..|pairs| - 1]) + [Blocking(pairs[|pairs| - 1].0, pairs[|pairs| - 1].1)]
  }

  method BlockingLines(pairs: seq<(int, int)>) returns (lines: seq<Message>)
    ensures lines == BlockingReport(pairs)
  {
    lines := [];
    for i := 0 to |pairs|
      invariant lines == BlockingReport(pairs[..i])
    {
      assert pairs[..i + 1][..i] == pairs[..i];
      lines := lines + [Blocking(pairs[i].0, pairs[i].1)];
    }
    assert pairs[..|pairs|] == pairs;
  }

  /** The verdict on already-parsed input: n = 0 is valid and stable outright; an invalid
      matching is reported with its violations and never checked for stability; a valid
      one is stable exactly when it has no blocking pair. */
  method VerifyMatching(n: nat, hp: seq<seq<int>>, sp: seq<seq<int>>,
                        hs: map<int, int>, order: seq<int>, sh: map<int, int>)
    returns (valid: bool, stable: bool, messages: seq<Message>)
    requires ValidPrefs(n, hp) && ValidPrefs(n, sp) && KeyOrder(order, hs)
    ensures n == 0 ==> valid && stable && messages == [EmptyInstance]
    ensures n > 0 ==> (valid <==> MutualInverse(n, hs, sh))
    ensures n > 0 ==> (stable <==> valid && Stable(hp, sp, hs, sh))
    ensures n > 0 && !valid ==>
              messages == InvalidReport(ValidityErrors(n, hs, order, sh))
    ensures n > 0 && valid && stable ==> messages == [ValidityPassed, StabilityPassed]
    ensures n > 0 && valid && !stable ==>
              var pairs := BlockingPairs(hp, sp, hs, sh, n);
              messages == [ValidityPassed, StabilityFailed, BlockingHeader] + BlockingReport(pairs)
  {
    if n == 0 {
      return true, true, [EmptyInstance];
    }
    valid, messages := ValidityVerdict(n, hs, order, sh);
    if !valid {
      return false, false, messages;
    }
    stable, messages := StabilityVerdict(n, hp, sp, hs, sh);
  }

  /** The first phase of the verdict: a matching that fails the structural checks is reported
      with every violation found. */
  method ValidityVerdict(n: nat, hs: map<int, int>, order: seq<int>, sh: map<int, int>)
    returns (valid: bool, messages: seq<Message>)
    requires KeyOrder(order, hs)
    ensures valid <==> MutualInverse(n, hs, sh)
    ensures !valid ==> messages == InvalidReport(ValidityErrors(n, hs, order, sh))
  {
    var errors;
    valid, errors := CheckValidity(n, hs, order, sh);
    ValidityIff(n, hs, order, sh);
    messages := InvalidReport(errors);
  }

  /** The second phase of the verdict, reached only by a valid matching: report whether it
      is stable and, if not, every blocking pair. */
  method StabilityVerdict(n: nat, hp: seq<seq<int>>, sp: seq<seq<int>>, hs: map<int, int>, sh: map<int, int>)
    returns (stable: bool, messages: seq<Message>)
    requires ValidPrefs(n, hp) && ValidPrefs(n, sp) && MutualInverse(n, hs, sh)
    ensures stable <==> Stable(hp, sp, hs, sh)
    ensures stable ==> messages == [ValidityPassed, StabilityPassed]
    ensures !stable ==>
              messages == [ValidityPassed, StabilityFailed, BlockingHeader]
                          + BlockingReport(BlockingPairs(hp, sp, hs, sh, n))
  {
    MutualInverseInRange(n, hs, sh);
    var isStable, pairs := CheckStability(n, hp, sp, hs, sh);
    NoBlockingPairsIffStable(n, hp, sp, hs, sh);
    if !isStable {
      var lines := BlockingLines(pairs);
      return false, [ValidityPassed, StabilityFailed, BlockingHeader] + lines;
    }
    return true, [ValidityPassed, StabilityPassed];
  }

  /** Mutually inverse dictionaries send every in-range key to an in-range partner, which is
      what the stability check indexes its rank tables with. */
  lemma MutualInverseInRange(n: nat, hs: map<int, int>, sh: map<int, int>)
    requires MutualInverse(n, hs, sh)
    ensures forall h :: 0 <= h < n && h in hs ==> 0 <= hs[h] < n
    ensures forall s :: 0 <= s < n && s in sh ==> 0 <= sh[s] < n
  {
    forall h | 0 <= h < n && h in hs
      ensures 0 <= hs[h] < n
    {
      assert hs[h] in sh.Keys;
    }
    forall s | 0 <= s < n && s in sh
      ensures 0 <= sh[s] < n
    {
      assert sh[s] in hs.Keys;
    }
  }

  // ---------------------------------------------------------------------------------------
  // Reading the matching

  /** The (hospital, student) pairs, made 0-based, of the lines holding exactly two numbers,
      in line order; every other line is skipped. */
  function Pairs(lines: seq<seq<int>>): (r: seq<(int, int)>)
    ensures |r| <= |lines|
  {
    if lines == [] then []
    else
      var line := lines[|lines| - 1];
      Pairs(lines[..|lines| - 1]) + (if |line| == 2 then [(line[0] - 1, line[1] - 1)] else [])
  }

  /** Each pair with its two sides swapped: the student-keyed view. */
  function Swap(ps: seq<(int, int)>): (r: seq<(int, int)>)
    ensures |r| == |ps| && forall i :: 0 <= i < |ps| ==> r[i].0 == ps[i].1 && r[i].1 == ps[i].0
  {
    seq(|ps|, i requires 0 <= i < |ps| => (ps[i].1, ps[i].0))
  }

  /** The dictionary left by assigning `d[k] = v` for each pair (k, v) in turn. */
  function Assign(ps: seq<(int, int)>): (m: map<int, int>)
    ensures ps != [] ==> ps[|ps| - 1].0 in m && m[ps[|ps| - 1].0] == ps[|ps| - 1].1
  {
    if ps == [] then map[]
    else Assign(ps[..|ps| - 1])[ps[|ps| - 1].0 := ps[|ps| - 1].1]
  }

  /** The keys of the pairs in the order they first occur: the order in which assigning the
      pairs inserts keys into the dictionary, which is the order its items are visited in. */
  function FirstKeys(ps: seq<(int, int)>): seq<int>
  {
    if ps == [] then []
    else
      var keys := FirstKeys(ps[..|ps| - 1]);
      if ps[|ps| - 1].0 in keys then keys else keys + [ps[|ps| - 1].0]
  }

  /** The first-storage order lists every key of the assigned dictionary exactly once. */
  lemma {:induction false} FirstKeysOrder(ps: seq<(int, int)>)
    ensures KeyOrder(FirstKeys(ps), Assign(ps))
  {
    if ps != [] {
      var init, p := ps[..|ps| - 1], ps[|ps| - 1];
      FirstKeysOrder(init);
      assert Assign(ps) == Assign(init)[p.0 := p.1];
    }
  }

  /** One more pair adds its key at the end of the order exactly when the key is new. */
  lemma FirstKeysNext(ps: seq<(int, int)>, p: (int, int))
    ensures FirstKeys(ps + [p]) == if p.0 in Assign(ps) then FirstKeys(ps) else FirstKeys(ps) + [p.0]
  {
    FirstKeysOrder(ps);
    assert (ps + [p])[..|ps|] == ps;
  }

  /** A pair is read from exactly the lines holding two numbers. */
  lemma {:induction false} PairsMembers(lines: seq<seq<int>>)
    ensures forall p :: p in Pairs(lines) <==>
              exists i :: 0 <= i < |lines| && |lines[i]| == 2 && p == (lines[i][0] - 1, lines[i][1] - 1)
  {
    if lines != [] {
      var init := lines[..|lines| - 1];
      PairsMembers(init);
      forall p | p in Pairs(lines)
        ensures exists i :: 0 <= i < |lines| && |lines[i]| == 2 && p == (lines[i][0] - 1, lines[i][1] - 1)
      {
        if p in Pairs(init) {
          var i :| 0 <= i < |init| && |init[i]| == 2 && p == (init[i][0] - 1, init[i][1] - 1);
          assert lines[i] == init[i];
        }
      }
      forall i | 0 <= i < |lines| && |lines[i]| == 2
        ensures (lines[i][0] - 1, lines[i][1] - 1) in Pairs(lines)
      {
        if i < |lines| - 1 {
          assert lines[i] == init[i];
        }
      }
    }
  }

  /** The dictionary's keys are exactly the pairs' first components. */
  lemma {:induction false} AssignKeys(ps: seq<(int, int)>)
    ensures forall k :: k in Assign(ps) <==> exists i :: 0 <= i < |ps| && ps[i].0 == k
  {
    if ps != [] {
      var init := ps[..|ps| - 1];
      AssignKeys(init);
      assert Assign(ps) == Assign(init)[ps[|ps| - 1].0 := ps[|ps| - 1].1];
      forall k | k in Assign(ps)
        ensures exists i :: 0 <= i < |ps| && ps[i].0 == k
      {
        if k != ps[|ps| - 1].0 {
          assert k in Assign(init);
          var i :| 0 <= i < |init| && init[i].0 == k;
          assert ps[i] == init[i];
        }
      }
      forall i | 0 <= i < |ps|
        ensures ps[i].0 in Assign(ps)
      {
        if i < |ps| - 1 {
          assert ps[i] == init[i];
        }
      }
    }
  }

  /** A later pair for a key overwrites every earlier one: each key holds the value of its
      last pair. */
  lemma {:induction false} AssignLastWins(ps: seq<(int, int)>, i: int)
    requires 0 <= i < |ps|
    requires forall j :: i < j < |ps| ==> ps[j].0 != ps[i].0
    ensures ps[i].0 in Assign(ps) && Assign(ps)[ps[i].0] == ps[i].1
  {
    if i < |ps| - 1 {
      AssignLastWins(ps[..|ps| - 1], i);
    }
  }

  /** One more line adds its pair, if it has exactly two tokens, at the end. */
  lemma PairsNext(lines: seq<seq<int>>, i: int)
    requires 0 <= i < |lines|
    ensures |lines[i]| != 2 ==> Pairs(lines[..i + 1]) == Pairs(lines[..i])
    ensures |lines[i]| == 2 ==> Pairs(lines[..i + 1]) == Pairs(lines[..i]) + [(lines[i][0] - 1, lines[i][1] - 1)]
  {
    assert lines[..i + 1][..i] == lines[..i];
    assert Pairs(lines[..i]) + [] == Pairs(lines[..i]);
  }

  /** Assigning one more pair updates both dictionaries at that pair's keys. */
  lemma AssignNext(ps: seq<(int, int)>, p: (int, int))
    ensures Assign(ps + [p]) == Assign(ps)[p.0 := p.1]
    ensures Assign(Swap(ps + [p])) == Assign(Swap(ps))[p.1 := p.0]
  {
    assert (ps + [p])[..|ps|] == ps;
    assert Swap(ps + [p]) == Swap(ps) + [(p.1, p.0)];
    assert (Swap(ps) + [(p.1, p.0)])[..|ps|] == Swap(ps);
  }

  /** Stores one pair in both dictionaries, recording the hospital on its first appearance,
      which keeps the order complete and repeat-free. */
  method Record(hs: map<int, int>, sh: map<int, int>, order: seq<int>, h: int, s: int)
    returns (hs': map<int, int>, sh': map<int, int>, order': seq<int>)
    requires KeyOrder(order, hs)
    ensures hs' == hs[h := s] && sh' == sh[s := h]
    ensures KeyOrder(order', hs')
    ensures order' == if h in hs then order else order + [h]
  {
    order' := order;
    if h !in hs {
      assert h !in order;
      order' := order + [h];
    }
    hs' := hs[h := s];
    sh' := sh[s := h];
  }

  /** One iteration of the parsing loop: a line of exactly two numbers is stored, any other
      line is skipped. */
  method ReadLine(lines: seq<seq<int>>, i: int, hs: map<int, int>, sh: map<int, int>, order: seq<int>)
    returns (hs': map<int, int>, sh': map<int, int>, order': seq<int>)
    requires 0 <= i < |lines|
    requires hs == Assign(Pairs(lines[..i])) && sh == Assign(Swap(Pairs(lines[..i])))
    requires order == FirstKeys(Pairs(lines[..i]))
    ensures hs' == Assign(Pairs(lines[..i + 1])) && sh' == Assign(Swap(Pairs(lines[..i + 1])))
    ensures order' == FirstKeys(Pairs(lines[..i + 1]))
  {
    PairsNext(lines, i);
    var parts := lines[i];
    if |parts| != 2 {
      return hs, sh, order;
    }
    var p := (parts[0] - 1, parts[1] - 1);
    ghost var ps := Pairs(lines[..i]);
    assert Pairs(lines[..i + 1]) == ps + [p];
    AssignNext(ps, p);
    FirstKeysNext(ps, p);
    FirstKeysOrder(ps);
    hs', sh', order' := Record(hs, sh, order, p.0, p.1);
  }

  /** Builds both dictionaries in one pass over the lines, recording the order in which
      hospitals first appear. */
  method ParseMatching(lines: seq<seq<int>>) returns (hs: map<int, int>, sh: map<int, int>, order: seq<int>)
    ensures hs == Assign(Pairs(lines))
    ensures sh == Assign(Swap(Pairs(lines)))
    ensures order == FirstKeys(Pairs(lines))
    ensures KeyOrder(order, hs)
  {
    hs, sh, order := map[], map[], [];
    for i := 0 to |lines|
      invariant hs == Assign(Pairs(lines[..i]))
      invariant sh == Assign(Swap(Pairs(lines[..i])))
      invariant order == FirstKeys(Pairs(lines[..i]))
    {
      hs, sh, order := ReadLine(lines, i, hs, sh, order);
    }
    assert lines[..|lines|] == lines;
    FirstKeysOrder(Pairs(lines));
  }
}
