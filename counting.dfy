/** Finite counting facts used by both the engine and the verifier: the ID range [0, n),
    duplicate-free sequences and injective maps. Every "pigeonhole" step in the model
    goes through FullRange or InjectiveValuesCard. */
module Counting {

  /** The participant IDs of one side: [0, n). */
  function Range(n: int): (r: set<int>)
    ensures forall x :: x in r <==> 0 <= x < n
    decreases n
  {
    if n <= 0 then {} else Range(n - 1) + {n - 1}
  }

  /** No ID occurs twice. */
  predicate Distinct(xs: seq<int>)
  {
    forall i, j :: 0 <= i < j < |xs| ==> xs[i] != xs[j]
  }

  /** No two keys share a value (Python: len(values) == len(set(values))). */
  predicate Injective(m: map<int, int>)
  {
    forall a, b :: a in m && b in m && m[a] == m[b] ==> a == b
  }

  lemma {:induction false} RangeCard(n: nat)
    ensures |Range(n)| == n
  {
    if n > 0 {
      RangeCard(n - 1);
      assert Range(n) == Range(n - 1) + {n - 1};
    }
  }

  lemma {:induction false} DistinctCard(xs: seq<int>)
    requires Distinct(xs)
    ensures |set x | x in xs| == |xs|
  {
    if xs != [] {
      var ys := xs[..|xs| - 1];
      var last := xs[|xs| - 1];
      assert Distinct(ys);
      DistinctCard(ys);
      assert xs == ys + [last];
      assert (set x | x in xs) == (set x | x in ys) + {last};
      assert last !in (set x | x in ys);
    }
  }

  lemma SubsetCard(a: set<int>, b: set<int>)
    requires a <= b
    ensures |a| <= |b|
    ensures |a| == |b| ==> a == b
  {
    assert b == a + (b - a);
    assert a !! (b - a);
    if |a| == |b| {
      assert |b - a| == 0;
      assert b - a == {};
    }
  }

  /** A sequence has at most as many different elements as entries, and fewer when one
      repeats. */
  lemma {:induction false} SeqSetCard(xs: seq<int>)
    ensures |set x | x in xs| <= |xs|
    ensures !Distinct(xs) ==> |set x | x in xs| < |xs|
  {
    if xs != [] {
      var ys := xs[..|xs| - 1];
      var last := xs[|xs| - 1];
      SeqSetCard(ys);
      var sx, sy := set x | x in xs, set x | x in ys;
      assert xs == ys + [last];
      assert sx == sy + {last};
      if !Distinct(xs) && Distinct(ys) {
        RepeatIsLast(xs);
        assert sx == sy;
      }
    }
  }

  /** When only the last entry repeats, it repeats an earlier one. */
  lemma RepeatIsLast(xs: seq<int>)
    requires xs != [] && !Distinct(xs) && Distinct(xs[..|xs| - 1])
    ensures xs[|xs| - 1] in xs[..|xs| - 1]
  {
    var i, j :| 0 <= i < j < |xs| && xs[i] == xs[j];
    assert j == |xs| - 1;
    assert xs[..|xs| - 1][i] == xs[i];
  }

  /** n distinct IDs drawn from [0, n) use up the whole range. */
  lemma FullRange(xs: seq<int>, n: nat)
    requires |xs| == n && Distinct(xs)
    requires forall i :: 0 <= i < n ==> 0 <= xs[i] < n
    ensures forall v :: 0 <= v < n ==> v in xs
  {
    var s := set x | x in xs;
    DistinctCard(xs);
    RangeCard(n);
    assert s <= Range(n);
    SubsetCard(s, Range(n));
    forall v | 0 <= v < n
      ensures v in xs
    {
      assert v in Range(n);
    }
  }

  /** Removing one key removes at most its value: every value of `m` is a value of the rest
      or the removed key's own. */
  lemma RemoveKeyValues(m: map<int, int>, k: int)
    requires k in m
    ensures |(m - {k})| == |m| - 1
    ensures m.Values <= (m - {k}).Values + {m[k]}
  {
    var r := m - {k};
    assert r.Keys == m.Keys - {k};
    forall v | v in m.Values
      ensures v in r.Values + {m[k]}
    {
      if forall j :: j in m.Keys ==> m[j] != v { assert false; }
      var j :| j in m.Keys && m[j] == v;
      if j != k {
        assert r[j] == v;
      }
    }
  }

  lemma {:induction false} ValuesCardBound(m: map<int, int>)
    ensures |m.Values| <= |m|
    decreases |m|
  {
    if |m| > 0 {
      if forall k :: k !in m.Keys { assert false; }
      var k :| k in m.Keys;
      var r := m - {k};
      ValuesCardBound(r);
      RemoveKeyValues(m, k);
      SubsetCard(m.Values, r.Values + {m[k]});
    }
  }

  lemma {:induction false} InjectiveCard(m: map<int, int>)
    requires Injective(m)
    ensures |m.Values| == |m|
    decreases |m|
  {
    if |m| > 0 {
      if forall k :: k !in m.Keys { assert false; }
      var k :| k in m.Keys;
      var r := m - {k};
      InjectiveCard(r);
      RemoveKeyValues(m, k);
      if m[k] in r.Values {
        if forall j :: j in r.Keys ==> r[j] != m[k] { assert false; }
        assert false;
      }
      assert m.Values == r.Values + {m[k]};
    } else {
      assert m.Values == {};
    }
  }

  /** A map is injective exactly when it has as many distinct values as keys. */
  lemma InjectiveValuesCard(m: map<int, int>)
    ensures Injective(m) <==> |m.Values| == |m|
  {
    if Injective(m) {
      InjectiveCard(m);
    } else {
      if forall a, b :: a in m && b in m && m[a] == m[b] ==> a == b { assert false; }
      var a, b :| a in m && b in m && m[a] == m[b] && a != b;
      var r := m - {a};
      assert r.Keys == m.Keys - {a};
      ValuesCardBound(r);
      forall v | v in m.Values
        ensures v in r.Values
      {
        if forall j :: j in m.Keys ==> m[j] != v { assert false; }
        var j :| j in m.Keys && m[j] == v;
        if j == a {
          assert r[b] == v;
        } else {
          assert r[j] == v;
        }
      }
      SubsetCard(m.Values, r.Values);
    }
  }
}
