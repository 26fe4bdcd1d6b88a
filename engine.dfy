/** The hospital-proposing Gale-Shapley engine. Hospitals wait in a FIFO queue; the head of
    the queue proposes to the next student on its list; a free student accepts, a matched
    student keeps whichever of the two hospitals she ranks higher, and the loser goes back to
    the end of the queue. The run ends when the queue is empty. */
module Engine {
  import opened Counting
  import opened Preferences
  import opened Matching
  import RankIndex

  datatype Option<T> = None | Some(value: T)

  /** One line of the proposal trace: `hospital` proposed to `student`, who then holds
      `holder`. */
  datatype Proposal = Proposal(hospital: int, student: int, holder: int)

  function Sum(xs: seq<int>): int
  {
    if xs == [] then 0 else Sum(xs[..|xs| - 1]) + xs[|xs| - 1]
  }

  /** Advancing one pointer by one adds one to the sum of all pointers. */
  lemma {:induction false} SumIncrement(xs: seq<int>, i: int)
    requires 0 <= i < |xs|
    ensures Sum(xs[i := xs[i] + 1]) == Sum(xs) + 1
  {
    var ys := xs[i := xs[i] + 1];
    if i < |xs| - 1 {
      SumIncrement(xs[..|xs| - 1], i);
      assert ys[..|ys| - 1] == xs[..|xs| - 1][i := xs[i] + 1];
    } else {
      assert ys[..|ys| - 1] == xs[..|xs| - 1];
    }
  }

  lemma {:induction false} SumBounds(xs: seq<int>, lo: int, hi: int)
    requires forall i :: 0 <= i < |xs| ==> lo <= xs[i] <= hi
    ensures |xs| * lo <= Sum(xs) <= |xs| * hi
  {
    if xs != [] {
      SumBounds(xs[..|xs| - 1], lo, hi);
      assert |xs| * lo == (|xs| - 1) * lo + lo;
      assert |xs| * hi == (|xs| - 1) * hi + hi;
    }
  }

  // ---------------------------------------------------------------------------------------
  // The engine state as sequences: next[h] is hospital h's next-proposal pointer, held[s] is
  // student s's tentative match, queue is the list of unmatched hospitals.

  ghost predicate WellFormed(n: nat, hp: seq<seq<int>>, sp: seq<seq<int>>,
                             next: seq<int>, held: seq<Option<int>>)
  {
    && ValidPrefs(n, hp) && ValidPrefs(n, sp)
    && |next| == n && |held| == n
    && (forall h :: 0 <= h < n ==> 0 <= next[h] <= n)
    && (forall s :: 0 <= s < n && held[s].Some? ==> 0 <= held[s].value < n)
  }

  /** No hospital is held by two students. */
  ghost predicate HeldOnce(held: seq<Option<int>>)
  {
    forall s1, s2 :: 0 <= s1 < |held| && 0 <= s2 < |held| && held[s1].Some? && held[s1] == held[s2] ==> s1 == s2
  }

  /** The queue lists, once each, exactly the hospitals that no student holds. */
  ghost predicate QueueIsFree(n: nat, queue: seq<int>, held: seq<Option<int>>)
  {
    && (forall i :: 0 <= i < |queue| ==> 0 <= queue[i] < n)
    && Distinct(queue)
    && (forall h :: 0 <= h < n ==> (h in queue <==> Some(h) !in held))
  }

  /** Every queued hospital still has a student left to propose to. */
  ghost predicate QueuedCanPropose(n: nat, queue: seq<int>, next: seq<int>)
    requires forall i :: 0 <= i < |queue| ==> 0 <= queue[i] < |next|
  {
    forall i :: 0 <= i < |queue| ==> next[queue[i]] < n
  }

  /** Every student a hospital has proposed to is held, by a hospital she ranks at least as
      high as that proposer. */
  ghost predicate ProposalsHonoured(n: nat, hp: seq<seq<int>>, sp: seq<seq<int>>,
                                    next: seq<int>, held: seq<Option<int>>)
    requires WellFormed(n, hp, sp, next, held)
  {
    forall h, i :: 0 <= h < n && 0 <= i < next[h] ==>
      && held[hp[h][i]].Some?
      && RankOf(sp[hp[h][i]], held[hp[h][i]].value) <= RankOf(sp[hp[h][i]], h)
  }

  /** A held hospital is held by the student it proposed to last. */
  ghost predicate HeldByLatest(n: nat, hp: seq<seq<int>>, sp: seq<seq<int>>,
                               next: seq<int>, held: seq<Option<int>>)
    requires WellFormed(n, hp, sp, next, held)
  {
    forall s :: 0 <= s < n && held[s].Some? ==>
      next[held[s].value] > 0 && hp[held[s].value][next[held[s].value] - 1] == s
  }

  ghost predicate EngineInvariant(n: nat, hp: seq<seq<int>>, sp: seq<seq<int>>,
                                  next: seq<int>, held: seq<Option<int>>, queue: seq<int>)
  {
    && WellFormed(n, hp, sp, next, held)
    && QueueIsFree(n, queue, held)
    && QueuedCanPropose(n, queue, next)
    && ProposalsHonoured(n, hp, sp, next, held)
    && HeldByLatest(n, hp, sp, next, held)
  }

  /** One turn of the loop: the head `h` of the queue proposes to `s`, the student at its
      pointer, and the pointer advances. A free `s` takes `h`; a matched `s` trades up to `h`
      when she ranks it strictly higher, sending her old hospital to the back of the queue;
      otherwise `h` goes to the back of the queue. */
  ghost predicate Proposes(n: nat, hp: seq<seq<int>>, sp: seq<seq<int>>,
                           next: seq<int>, held: seq<Option<int>>, queue: seq<int>,
                           next': seq<int>, held': seq<Option<int>>, queue': seq<int>)
    requires WellFormed(n, hp, sp, next, held)
    requires queue != [] && 0 <= queue[0] < n && next[queue[0]] < n
  {
    var h := queue[0];
    var s := hp[h][next[h]];
    && next' == next[h := next[h] + 1]
    && match held[s]
       case None => held' == held[s := Some(h)] && queue' == queue[1..]
       case Some(cur) =>
         if RankOf(sp[s], h) < RankOf(sp[s], cur) then
           held' == held[s := Some(h)] && queue' == queue[1..] + [cur]
         else
           held' == held && queue' == queue[1..] + [h]
  }

  /** Every trace line names in-range participants, and the student holds a hospital she
      ranks at least as high as the proposer. */
  ghost predicate TraceFaithful(n: nat, sp: seq<seq<int>>, trace: seq<Proposal>)
    requires ValidPrefs(n, sp)
  {
    forall k :: 0 <= k < |trace| ==>
      && 0 <= trace[k].hospital < n && 0 <= trace[k].student < n && 0 <= trace[k].holder < n
      && RankOf(sp[trace[k].student], trace[k].holder) <= RankOf(sp[trace[k].student], trace[k].hospital)
  }

  /** A proposal line whose student holds a hospital ranked at least as high as the proposer
      keeps the trace faithful. */
  lemma TraceExtend(n: nat, sp: seq<seq<int>>, trace: seq<Proposal>, p: Proposal)
    requires ValidPrefs(n, sp) && TraceFaithful(n, sp, trace)
    requires 0 <= p.hospital < n && 0 <= p.student < n && 0 <= p.holder < n
    requires RankOf(sp[p.student], p.holder) <= RankOf(sp[p.student], p.hospital)
    ensures TraceFaithful(n, sp, trace + [p])
  {
  }

  // ---------------------------------------------------------------------------------------
  // The invariant is preserved by a proposal.

  /** No two students hold the same hospital: each holds the hospital whose latest proposal
      went to her, and a hospital's latest proposal went to one student. */
  lemma LatestHeldOnce(n: nat, hp: seq<seq<int>>, sp: seq<seq<int>>,
                       next: seq<int>, held: seq<Option<int>>)
    requires WellFormed(n, hp, sp, next, held) && HeldByLatest(n, hp, sp, next, held)
    ensures HeldOnce(held)
  {
    forall s1, s2 | 0 <= s1 < |held| && 0 <= s2 < |held| && held[s1].Some? && held[s1] == held[s2]
      ensures s1 == s2
    {
      var x := held[s1].value;
      assert hp[x][next[x] - 1] == s1;
    }
  }

  /** Dropping the head of a duplicate-free queue removes exactly that hospital. */
  lemma TailMembers(q: seq<int>)
    requires q != [] && Distinct(q)
    ensures Distinct(q[1..])
    ensures forall x :: x in q[1..] <==> x != q[0] && x in q
  {
    assert q == [q[0]] + q[1..];
    forall x | x in q[1..]
      ensures x != q[0]
    {
      var i :| 0 <= i < |q[1..]| && q[1..][i] == x;
      assert q[i + 1] == x;
    }
  }

  lemma DistinctAppend(q: seq<int>, y: int)
    requires Distinct(q) && y !in q
    ensures Distinct(q + [y])
  {
  }

  /** After `s` takes a hospital `h` nobody held, the held hospitals are `h` and those held
      before, except the one `s` gave up. */
  lemma HeldAfterAccept(held: seq<Option<int>>, s: int, h: int)
    requires HeldOnce(held) && 0 <= s < |held| && Some(h) !in held
    ensures forall x :: Some(x) in held[s := Some(h)] <==> x == h || (Some(x) in held && held[s] != Some(x))
  {
    var held' := held[s := Some(h)];
    forall x
      ensures Some(x) in held' <==> x == h || (Some(x) in held && held[s] != Some(x))
    {
      assert held'[s] == Some(h);
      if Some(x) in held' {
        var t :| 0 <= t < |held'| && held'[t] == Some(x);
        if t != s {
          assert held[t] == Some(x);
        }
      }
      if Some(x) in held && held[s] != Some(x) {
        var t :| 0 <= t < |held| && held[t] == Some(x);
        assert held'[t] == Some(x);
      }
    }
  }

  lemma ProposesQueueIsFree(n: nat, hp: seq<seq<int>>, sp: seq<seq<int>>,
                            next: seq<int>, held: seq<Option<int>>, queue: seq<int>,
                            next': seq<int>, held': seq<Option<int>>, queue': seq<int>)
    requires EngineInvariant(n, hp, sp, next, held, queue) && queue != []
    requires Proposes(n, hp, sp, next, held, queue, next', held', queue')
    ensures QueueIsFree(n, queue', held')
  {
    var h := queue[0];
    var s := hp[h][next[h]];
    assert h in queue;
    LatestHeldOnce(n, hp, sp, next, held);
    TailMembers(queue);
    match held[s]
    case None =>
      HeldAfterAccept(held, s, h);
    case Some(cur) =>
      assert Some(cur) in held;
      if RankOf(sp[s], h) < RankOf(sp[s], cur) {
        HeldAfterAccept(held, s, h);
        DistinctAppend(queue[1..], cur);
      } else {
        DistinctAppend(queue[1..], h);
      }
  }

  lemma ProposesHonoured(n: nat, hp: seq<seq<int>>, sp: seq<seq<int>>,
                         next: seq<int>, held: seq<Option<int>>, queue: seq<int>,
                         next': seq<int>, held': seq<Option<int>>, queue': seq<int>)
    requires EngineInvariant(n, hp, sp, next, held, queue) && queue != []
    requires Proposes(n, hp, sp, next, held, queue, next', held', queue')
    requires WellFormed(n, hp, sp, next', held')
    ensures ProposalsHonoured(n, hp, sp, next', held')
  {
    var h := queue[0];
    var s := hp[h][next[h]];
    forall x, i | 0 <= x < n && 0 <= i < next'[x]
      ensures held'[hp[x][i]].Some?
      ensures RankOf(sp[hp[x][i]], held'[hp[x][i]].value) <= RankOf(sp[hp[x][i]], x)
    {
      var t := hp[x][i];
      if t == s && (x != h || i < next[h]) {
        // s was proposed to before, so she held someone, and she only trades up
        assert held[s].Some?;
      }
    }
  }

  lemma ProposesHeldByLatest(n: nat, hp: seq<seq<int>>, sp: seq<seq<int>>,
                             next: seq<int>, held: seq<Option<int>>, queue: seq<int>,
                             next': seq<int>, held': seq<Option<int>>, queue': seq<int>)
    requires WellFormed(n, hp, sp, next, held) && HeldByLatest(n, hp, sp, next, held)
    requires QueueIsFree(n, queue, held) && queue != [] && next[queue[0]] < n
    requires Proposes(n, hp, sp, next, held, queue, next', held', queue')
    requires WellFormed(n, hp, sp, next', held')
    ensures HeldByLatest(n, hp, sp, next', held')
  {
    var h := queue[0];
    var s := hp[h][next[h]];
    assert h in queue;
    forall t | 0 <= t < n && held'[t].Some?
      ensures next'[held'[t].value] > 0 && hp[held'[t].value][next'[held'[t].value] - 1] == t
    {
      if t == s && held'[t] == Some(h) {
        assert next'[h] - 1 == next[h];
      } else {
        var x := held'[t].value;
        assert held[t] == Some(x);
        assert x != h;
        assert next'[x] == next[x];
      }
    }
  }

  /** When all n students hold distinct hospitals from [0, n), every hospital is held. */
  lemma EveryHospitalHeld(n: nat, held: seq<Option<int>>)
    requires |held| == n && HeldOnce(held)
    requires forall s :: 0 <= s < n ==> held[s].Some? && 0 <= held[s].value < n
    ensures forall x :: 0 <= x < n ==> Some(x) in held
  {
    var holders := seq(n, s requires 0 <= s < n => held[s].value);
    forall i, j | 0 <= i < j < n
      ensures holders[i] != holders[j]
    {
      assert held[i] != held[j];
    }
    FullRange(holders, n);
    forall x | 0 <= x < n
      ensures Some(x) in held
    {
      assert x in holders;
      var i :| 0 <= i < n && holders[i] == x;
      assert held[i] == Some(x);
    }
  }

  /** The pigeonhole step: a hospital that nobody holds has not yet proposed to everyone,
      because if it had, all n students would hold n distinct hospitals other than it. */
  lemma NotHeldCanPropose(n: nat, hp: seq<seq<int>>, sp: seq<seq<int>>,
                          next: seq<int>, held: seq<Option<int>>, x: int)
    requires WellFormed(n, hp, sp, next, held) && HeldOnce(held)
    requires ProposalsHonoured(n, hp, sp, next, held)
    requires 0 <= x < n && Some(x) !in held
    ensures next[x] < n
  {
    if next[x] == n {
      RankOfPerm(hp[x], n);
      forall s | 0 <= s < n
        ensures held[s].Some?
      {
        var i := RankOf(hp[x], s);
        assert hp[x][i] == s;
      }
      EveryHospitalHeld(n, held);
      assert false;
    }
  }

  lemma ProposesCanPropose(n: nat, hp: seq<seq<int>>, sp: seq<seq<int>>,
                           next: seq<int>, held: seq<Option<int>>, queue: seq<int>,
                           next': seq<int>, held': seq<Option<int>>, queue': seq<int>)
    requires EngineInvariant(n, hp, sp, next, held, queue) && queue != []
    requires Proposes(n, hp, sp, next, held, queue, next', held', queue')
    requires WellFormed(n, hp, sp, next', held') && HeldOnce(held')
    requires QueueIsFree(n, queue', held') && ProposalsHonoured(n, hp, sp, next', held')
    ensures QueuedCanPropose(n, queue', next')
  {
    var h := queue[0];
    forall i | 0 <= i < |queue'|
      ensures next'[queue'[i]] < n
    {
      if i < |queue| - 1 {
        assert queue'[i] == queue[i + 1];
        assert queue[i + 1] != h;
      } else {
        assert queue'[i] in queue';
        NotHeldCanPropose(n, hp, sp, next', held', queue'[i]);
      }
    }
  }

  /** A proposal keeps the engine invariant. */
  lemma ProposesPreserves(n: nat, hp: seq<seq<int>>, sp: seq<seq<int>>,
                          next: seq<int>, held: seq<Option<int>>, queue: seq<int>,
                          next': seq<int>, held': seq<Option<int>>, queue': seq<int>)
    requires EngineInvariant(n, hp, sp, next, held, queue) && queue != []
    requires Proposes(n, hp, sp, next, held, queue, next', held', queue')
    ensures EngineInvariant(n, hp, sp, next', held', queue')
  {
    assert WellFormed(n, hp, sp, next', held');
    ProposesQueueIsFree(n, hp, sp, next, held, queue, next', held', queue');
    ProposesHonoured(n, hp, sp, next, held, queue, next', held', queue');
    ProposesHeldByLatest(n, hp, sp, next, held, queue, next', held', queue');
    LatestHeldOnce(n, hp, sp, next', held');
    ProposesCanPropose(n, hp, sp, next, held, queue, next', held', queue');
  }

  /** What one proposal changes: only the proposer's pointer moves, by exactly one, so the
      proposal count (the pointer sum) grows by one; a matched student stays matched, and
      her partner changes only to a hospital she ranks strictly higher. */
  lemma ProposesAdvances(n: nat, hp: seq<seq<int>>, sp: seq<seq<int>>,
                         next: seq<int>, held: seq<Option<int>>, queue: seq<int>,
                         next': seq<int>, held': seq<Option<int>>, queue': seq<int>)
    requires WellFormed(n, hp, sp, next, held)
    requires queue != [] && 0 <= queue[0] < n && next[queue[0]] < n
    requires Proposes(n, hp, sp, next, held, queue, next', held', queue')
    ensures forall h :: 0 <= h < n ==> next'[h] == if h == queue[0] then next[h] + 1 else next[h]
    ensures Sum(next') == Sum(next) + 1
    ensures forall s :: 0 <= s < n && held[s].Some? ==>
              && held'[s].Some?
              && (held'[s] == held[s] || RankOf(sp[s], held'[s].value) < RankOf(sp[s], held[s].value))
  {
    SumIncrement(next, queue[0]);
  }

  // ---------------------------------------------------------------------------------------
  // When the queue is empty the held hospitals form a stable perfect matching.

  /** When the queue is empty, a student whom a hospital prefers to its partner holds a
      hospital she ranks at least as high as that one: the hospital proposed to her earlier,
      since it proposes down its list and holds its latest proposal. */
  lemma FinalNotBlocking(n: nat, hp: seq<seq<int>>, sp: seq<seq<int>>,
                         next: seq<int>, held: seq<Option<int>>, m: map<int, int>, h: int, s: int)
    requires EngineInvariant(n, hp, sp, next, held, [])
    requires Injective(m)
    requires forall x :: x in m ==> 0 <= m[x] < n && held[m[x]] == Some(x)
    requires 0 <= h < n && 0 <= s < n && h in m && s in Inverse(m)
    requires RankOf(hp[h], s) < RankOf(hp[h], m[h])
    ensures RankOf(sp[s], Inverse(m)[s]) <= RankOf(sp[s], h)
  {
    var h2 := Inverse(m)[s];
    assert held[m[h]] == Some(h) && held[s] == Some(h2);
    RankOfPerm(hp[h], n);
    var i := RankOf(hp[h], s);
    assert hp[h][i] == s && i < next[h];
  }

  /** With the queue empty every hospital is held. */
  lemma FinalAllHeld(n: nat, hp: seq<seq<int>>, sp: seq<seq<int>>,
                     next: seq<int>, held: seq<Option<int>>)
    requires EngineInvariant(n, hp, sp, next, held, [])
    ensures forall h :: 0 <= h < n ==> Some(h) in held
  {
    forall h | 0 <= h < n
      ensures Some(h) in held
    {
      assert h !in [];
    }
  }

  /** The hospital -> student dictionary read off a student -> hospital array in which every
      hospital occurs is a perfect matching. */
  lemma FinalPerfect(n: nat, held: seq<Option<int>>, m: map<int, int>)
    requires |held| == n
    requires forall h :: 0 <= h < n ==> Some(h) in held
    requires forall x :: x in m <==> 0 <= x < n && Some(x) in held
    requires forall x :: x in m ==> 0 <= m[x] < n && held[m[x]] == Some(x)
    ensures PerfectMatching(n, m)
  {
    forall a, b | a in m && b in m && m[a] == m[b]
      ensures a == b
    {
      assert held[m[a]] == Some(a) && held[m[b]] == Some(b);
    }
    assert m.Keys == Range(n);
  }

  lemma FinalStable(n: nat, hp: seq<seq<int>>, sp: seq<seq<int>>,
                    next: seq<int>, held: seq<Option<int>>, m: map<int, int>)
    requires EngineInvariant(n, hp, sp, next, held, [])
    requires Injective(m)
    requires forall x :: x in m ==> 0 <= m[x] < n && held[m[x]] == Some(x)
    ensures Stable(hp, sp, m, Inverse(m))
  {
    forall h, s
      ensures !BlockingPair(hp, sp, m, Inverse(m), h, s)
    {
      if 0 <= h < n && 0 <= s < n && h in m && s in Inverse(m) && RankOf(hp[h], s) < RankOf(hp[h], m[h]) {
        FinalNotBlocking(n, hp, sp, next, held, m, h, s);
      }
    }
  }

  /** Every hospital is held, so every hospital proposed at least once. */
  lemma FinalCount(n: nat, hp: seq<seq<int>>, sp: seq<seq<int>>,
                   next: seq<int>, held: seq<Option<int>>)
    requires EngineInvariant(n, hp, sp, next, held, [])
    ensures n <= Sum(next)
  {
    FinalAllHeld(n, hp, sp, next, held);
    forall h | 0 <= h < n
      ensures 1 <= next[h]
    {
      var t :| 0 <= t < n && held[t] == Some(h);
    }
    SumBounds(next, 1, n);
  }

  /** The initial state (every pointer at 0, every student free, every hospital queued in
      ID order) satisfies the invariant, with no proposals made. */
  lemma InitialInvariant(n: nat, hp: seq<seq<int>>, sp: seq<seq<int>>)
    requires ValidPrefs(n, hp) && ValidPrefs(n, sp)
    ensures EngineInvariant(n, hp, sp, seq(n, _ => 0), seq(n, _ => None), seq(n, h => h))
    ensures Sum(seq(n, _ => 0)) == 0
  {
    var queue := seq(n, h => h);
    SumBounds(seq(n, _ => 0), 0, 0);
    forall h | 0 <= h < n
      ensures h in queue
    {
      assert queue[h] == h;
    }
  }

  // ---------------------------------------------------------------------------------------

  /** The state of one run: a fresh object per call, so nothing is shared between runs. */
  class Engine {
    const n: nat
    const hospitalPrefs: seq<seq<int>>
    ghost const studentPrefs: seq<seq<int>>
    /** studentRank[s, h] is the position of hospital h in student s's list. */
    const studentRank: array2<int>
    /** hospitalNext[h] is the index, in h's list, of the next student h proposes to. */
    const hospitalNext: array<int>
    /** studentMatch[s] is the hospital student s tentatively holds. */
    const studentMatch: array<Option<int>>
    var unmatched: seq<int>
    var proposals: nat
    var trace: seq<Proposal>

    ghost predicate Valid()
      reads this, studentRank, hospitalNext, studentMatch
    {
      && EngineInvariant(n, hospitalPrefs, studentPrefs, hospitalNext[..], studentMatch[..], unmatched)
      && studentRank.Length0 == n && studentRank.Length1 == n
      && (forall s, h :: 0 <= s < n && 0 <= h < n ==> studentRank[s, h] == RankOf(studentPrefs[s], h))
      && proposals == Sum(hospitalNext[..])
      && |trace| == proposals
      && TraceFaithful(n, studentPrefs, trace)
    }

    /** The initial state: every pointer at 0, every student free, every hospital queued in
        ID order, no proposals yet. */
    constructor (n: nat, hospitalPrefs: seq<seq<int>>, studentPrefs: seq<seq<int>>)
      requires ValidPrefs(n, hospitalPrefs) && ValidPrefs(n, studentPrefs)
      ensures Valid()
      ensures this.n == n && this.hospitalPrefs == hospitalPrefs && this.studentPrefs == studentPrefs
      ensures fresh(hospitalNext) && fresh(studentMatch)
      ensures forall h :: 0 <= h < n ==> hospitalNext[h] == 0
      ensures forall s :: 0 <= s < n ==> studentMatch[s] == None
      ensures unmatched == seq(n, h => h) && proposals == 0 && trace == []
    {
      this.n := n;
      this.hospitalPrefs := hospitalPrefs;
      this.studentPrefs := studentPrefs;
      var rank := RankIndex.BuildRankTable(n, studentPrefs);
      studentRank := rank;
      hospitalNext := new int[n](_ => 0);
      studentMatch := new Option<int>[n](_ => None);
      unmatched := seq(n, h => h);
      proposals := 0;
      trace := [];
      new;
      assert hospitalNext[..] == seq(n, _ => 0);
      assert studentMatch[..] == seq(n, _ => None);
      InitialInvariant(n, hospitalPrefs, studentPrefs);
    }

    /** One iteration of the proposal loop. */
    method Step()
      requires Valid() && unmatched != []
      modifies this, hospitalNext, studentMatch
      ensures Valid()
      ensures old(hospitalNext[unmatched[0]]) < n
      ensures Proposes(n, hospitalPrefs, studentPrefs, old(hospitalNext[..]), old(studentMatch[..]), old(unmatched),
                       hospitalNext[..], studentMatch[..], unmatched)
      ensures proposals == old(proposals) + 1
      ensures var h := old(unmatched[0]);
              var s := hospitalPrefs[h][old(hospitalNext[h])];
              studentMatch[s].Some? && trace == old(trace) + [Proposal(h, s, studentMatch[s].value)]
    {
      ghost var next0, held0, queue0 := hospitalNext[..], studentMatch[..], unmatched;
      var h := unmatched[0];
      if hospitalNext[h] >= n {
        // The source drops a hospital that has proposed to everyone. Every queued hospital
        // has a student left (QueuedCanPropose), so this branch is never taken.
        assert false;
      }
      var s := hospitalPrefs[h][hospitalNext[h]];
      var winner, queue;
      match studentMatch[s] {
        case None =>
          winner, queue := h, unmatched[1..];
        case Some(cur) =>
          if studentRank[s, h] < studentRank[s, cur] {
            winner, queue := h, unmatched[1..] + [cur];
          } else {
            winner, queue := cur, unmatched[1..] + [h];
          }
      }
      assert Proposes(n, hospitalPrefs, studentPrefs, next0, held0, queue0,
                      next0[h := next0[h] + 1], held0[s := Some(winner)], queue);
      ProposesPreserves(n, hospitalPrefs, studentPrefs, next0, held0, queue0,
                        next0[h := next0[h] + 1], held0[s := Some(winner)], queue);
      SumIncrement(next0, h);
      TraceExtend(n, studentPrefs, trace, Proposal(h, s, winner));

      hospitalNext[h] := hospitalNext[h] + 1;
      studentMatch[s] := Some(winner);
      unmatched := queue;
      proposals := proposals + 1;
      trace := trace + [Proposal(h, s, winner)];
      assert hospitalNext[..] == next0[h := next0[h] + 1];
      assert studentMatch[..] == held0[s := Some(winner)];
      assert studentMatch[s] == Some(winner);
    }

    /** The `while unmatched` loop. It ends after at most n * n proposals, since every
        proposal advances one of n pointers, each bounded by n. */
    method Run()
      requires Valid()
      modifies this, hospitalNext, studentMatch
      ensures Valid() && unmatched == []
      ensures proposals <= n * n
    {
      SumBounds(hospitalNext[..], 0, n);
      while unmatched != []
        invariant Valid()
        invariant proposals <= n * n
        decreases n * n - proposals
      {
        Step();
        SumBounds(hospitalNext[..], 0, n);
      }
    }

    /** Turns the student -> hospital array into a hospital -> student dictionary. */
    method Matching() returns (m: map<int, int>)
      requires Valid()
      ensures forall h :: h in m <==> 0 <= h < n && Some(h) in studentMatch[..]
      ensures forall h :: h in m ==> 0 <= m[h] < n && studentMatch[m[h]] == Some(h)
    {
      m := map[];
      for s := 0 to n
        invariant forall h :: h in m <==> 0 <= h < n && Some(h) in studentMatch[..s]
        invariant forall h :: h in m ==> 0 <= m[h] < s && studentMatch[m[h]] == Some(h)
      {
        assert studentMatch[..s + 1] == studentMatch[..s] + [studentMatch[s]];
        match studentMatch[s] {
          case None =>
          case Some(h) =>
            m := m[h := s];
        }
      }
      assert studentMatch[..n] == studentMatch[..];
    }
  }

  /** Runs hospital-proposing Gale-Shapley on complete strict preference lists. The result is
      a perfect matching with no blocking pair, reached after between n and n * n proposals,
      one trace line per proposal. */
  method GaleShapley(n: nat, hospitalPrefs: seq<seq<int>>, studentPrefs: seq<seq<int>>)
    returns (matching: map<int, int>, proposals: nat, trace: seq<Proposal>)
    requires ValidPrefs(n, hospitalPrefs) && ValidPrefs(n, studentPrefs)
    ensures n == 0 ==> matching == map[] && proposals == 0 && trace == []
    ensures PerfectMatching(n, matching)
    ensures Stable(hospitalPrefs, studentPrefs, matching, Inverse(matching))
    ensures n <= proposals <= n * n
    ensures |trace| == proposals && TraceFaithful(n, studentPrefs, trace)
  {
    if n == 0 {
      return map[], 0, [];
    }
    var engine := new Engine(n, hospitalPrefs, studentPrefs);
    engine.Run();
    matching := engine.Matching();
    proposals := engine.proposals;
    trace := engine.trace;
    ghost var next, held := engine.hospitalNext[..], engine.studentMatch[..];
    FinalAllHeld(n, hospitalPrefs, studentPrefs, next, held);
    FinalPerfect(n, held, matching);
    FinalStable(n, hospitalPrefs, studentPrefs, next, held, matching);
    FinalCount(n, hospitalPrefs, studentPrefs, next, held);
  }
}
