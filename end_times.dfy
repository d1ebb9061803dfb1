/** The end-time recurrence both schedulers use to rate a schedule.

    Queues are visited in processor order and each queue front to back, with a
    running processor time that starts at 0. A task starts at the later of that
    time and the largest end time recorded so far for any of its dependencies
    (0 for a dependency not recorded yet), and ends `duration` later. The
    schedule's rating is the largest recorded end time.

    The recurrence works on `Job` views of the tasks (identity, duration,
    dependency identities), so the two task classes share it. Two dictionary
    variants are modelled: the annealing one only reads missing dependencies
    as 0, the genetic one also records them with the value 0. */
module EndTimes {
  import opened Collections

  /** What the recurrence reads of one task: its identity, duration and dependencies. */
  datatype Job<T> = Job(id: T, duration: int, deps: seq<T>)

  type Queues<T> = seq<seq<Job<T>>>

  /** `Math.Max`. */
  function Max(a: int, b: int): int {
    if a < b then b else a
  }

  /** `taskEndTime.ContainsKey(d) ? taskEndTime[d] : 0`. */
  function Lookup<T(==)>(m: map<T, int>, d: T): int {
    if d in m then m[d] else 0
  }

  /** `deps.Count > 0 ? deps.Max(d => Lookup(m, d)) : 0`: the largest looked-up end
      time of the dependencies, or 0 when there are none (DependenciesEndIsMax). */
  function DependenciesEnd<T(==)>(m: map<T, int>, deps: seq<T>): (r: int)
    ensures deps == [] ==> r == 0
    decreases |deps|
  {
    if |deps| == 0 then 0
    else if |deps| == 1 then Lookup(m, deps[0])
    else Max(DependenciesEnd(m, deps[..|deps| - 1]), Lookup(m, deps[|deps| - 1]))
  }

  /** DependenciesEnd is the maximum of the looked-up end times: an upper bound
      that some dependency attains. */
  lemma {:induction false} DependenciesEndIsMax<T>(m: map<T, int>, deps: seq<T>)
    ensures forall d :: d in deps ==> Lookup(m, d) <= DependenciesEnd(m, deps)
    ensures deps != [] ==> exists d :: d in deps && Lookup(m, d) == DependenciesEnd(m, deps)
    decreases |deps|
  {
    if |deps| == 1 {
      assert deps[0] in deps;
    } else if |deps| > 1 {
      var init, last := deps[..|deps| - 1], deps[|deps| - 1];
      assert deps == init + [last];
      DependenciesEndIsMax(m, init);
      if DependenciesEnd(m, init) < Lookup(m, last) {
        assert last in deps;
      } else {
        var d :| d in init && Lookup(m, d) == DependenciesEnd(m, init);
        assert d in deps;
      }
    }
  }

  /** The identities of a queue, in order. */
  function Ids<T(==)>(q: seq<Job<T>>): (r: seq<T>)
    ensures |r| == |q| && forall i :: 0 <= i < |q| ==> r[i] == q[i].id
  {
    seq(|q|, i requires 0 <= i < |q| => q[i].id)
  }

  /** The identities of flattened queues are the flattened identities. */
  lemma {:induction false} IdsFlatten<T>(q: Queues<T>, s: seq<seq<T>>)
    requires |q| == |s| && forall p :: 0 <= p < |s| ==> Ids(q[p]) == s[p]
    ensures Ids(Flatten(q)) == Flatten(s)
    decreases |s|
  {
    if s != [] {
      IdsFlatten(q[1..], s[1..]);
      assert Ids(q[0] + Flatten(q[1..])) == Ids(q[0]) + Ids(Flatten(q[1..]));
    }
  }

  /** Gives `k` the entry 0 unless it already has one. */
  function WithEntry<T(==)>(m: map<T, int>, k: T): map<T, int> {
    if k in m then m else m[k := 0]
  }

  /** One step of the annealing evaluator: make sure the task has an entry, then
      record max(processor time, dependencies' end) + duration for it. */
  function Visit<T(==)>(m: map<T, int>, endTime: int, j: Job<T>): map<T, int> {
    var m0 := WithEntry(m, j.id);
    m0[j.id := Max(endTime, DependenciesEnd(m0, j.deps)) + j.duration]
  }

  /** One step of a loop that computes RunQueue job by job: after giving job `i`
      (identity `k`) an entry and recording its end time `v`, the rest of the
      queue still leads to the same map. */
  lemma QueueLoopStep<T>(atStart: map<T, int>, m: map<T, int>, endTime: int, q: seq<Job<T>>, i: int,
                         k: T, entered: map<T, int>, dependenciesEnd: int, v: int)
    requires 0 <= i < |q| && RunQueue(m, endTime, q[i..]) == RunQueue(atStart, 0, q)
    requires q[i].id == k && entered == WithEntry(m, k) && dependenciesEnd == DependenciesEnd(entered, q[i].deps)
    requires v == Max(endTime, dependenciesEnd) + q[i].duration
    ensures RunQueue(entered[k := v], v, q[i + 1..]) == RunQueue(atStart, 0, q)
  {
    assert q[i..][0] == q[i] && q[i..][1..] == q[i + 1..];
  }

  /** RunAll on a non-empty schedule, one step unfolded. */
  lemma AllStep<T>(m: map<T, int>, s: Queues<T>)
    requires s != []
    ensures RunAll(m, s) == RunAll(RunQueue(m, 0, s[0]), s[1..])
  {
  }

  /** One queue of the annealing evaluator, starting with processor time `endTime`. */
  function RunQueue<T(==)>(m: map<T, int>, endTime: int, q: seq<Job<T>>): map<T, int>
    decreases |q|
  {
    if q == [] then m
    else
      var m' := Visit(m, endTime, q[0]);
      RunQueue(m', m'[q[0].id], q[1..])
  }

  /** All queues of the annealing evaluator, each starting with processor time 0. */
  function RunAll<T(==)>(m: map<T, int>, s: Queues<T>): map<T, int>
    decreases |s|
  {
    if s == [] then m else RunAll(RunQueue(m, 0, s[0]), s[1..])
  }

  /** The largest value the map records for the given keys. */
  function MaxOf<T(==)>(m: map<T, int>, ks: seq<T>): (r: int)
    requires ks != [] && forall k :: k in ks ==> k in m
    ensures forall k :: k in ks ==> m[k] <= r
    ensures exists k :: k in ks && m[k] == r
    decreases |ks|
  {
    if |ks| == 1 then m[ks[0]]
    else
      assert ks == [ks[0]] + ks[1..];
      Max(m[ks[0]], MaxOf(m, ks[1..]))
  }

  /** The annealing rating: the largest recorded end time over all scheduled tasks,
      or the exception Enumerable.Max throws when no task is scheduled. */
  function EndTime<T(==)>(s: Queues<T>): (r: Result<int>)
    ensures r.Threw? <==> Flatten(s) == []
    ensures r.Threw? ==> r.error == InvalidOperation
  {
    var all := Flatten(s);
    if all == [] then Threw(InvalidOperation)
    else
      var m := RunAll(map[], s);
      RunAllKeys(map[], s);
      var ids := Ids(all);
      assert forall j :: j in all ==> j.id in ids by {
        forall j | j in all ensures j.id in ids {
          var i :| 0 <= i < |all| && all[i] == j;
          assert ids[i] == j.id;
        }
      }
      assert forall k :: k in ids ==> k in m by {
        forall k | k in ids ensures k in m {
          var i :| 0 <= i < |ids| && ids[i] == k;
          assert all[i] in all;
        }
      }
      Ok(MaxOf(m, ids))
  }

  /** The rating is the end time of some scheduled task and no scheduled task
      ends later. */
  lemma EndTimeIsMax<T>(s: Queues<T>)
    ensures EndTime(s).Ok? ==> forall j :: j in Flatten(s) ==> j.id in RunAll(map[], s) && RunAll(map[], s)[j.id] <= EndTime(s).value
    ensures EndTime(s).Ok? ==> exists j :: j in Flatten(s) && j.id in RunAll(map[], s) && RunAll(map[], s)[j.id] == EndTime(s).value
  {
    var all := Flatten(s);
    if all != [] {
      var m := RunAll(map[], s);
      RunAllKeys(map[], s);
      var ids := Ids(all);
      assert forall j :: j in all ==> j.id in ids by {
        forall j | j in all ensures j.id in ids {
          var i :| 0 <= i < |all| && all[i] == j;
          assert ids[i] == j.id;
        }
      }
      assert forall k :: k in ids ==> k in m by {
        forall k | k in ids ensures k in m {
          var i :| 0 <= i < |ids| && ids[i] == k;
          assert all[i] in all;
        }
      }
      var v := MaxOf(m, ids);
      assert EndTime(s) == Ok(v);
      var k :| k in ids && m[k] == v;
      var i :| 0 <= i < |ids| && ids[i] == k;
      assert all[i] in all && all[i].id == k;
    }
  }

  // ---------------------------------------------------------------------------
  // Which tasks the annealing dictionary ends up holding.

  /** `x` is the identity of some job of the queues. */
  predicate Scheduled<T(==)>(s: Queues<T>, x: T) {
    exists p, i :: 0 <= p < |s| && 0 <= i < |s[p]| && s[p][i].id == x
  }

  lemma {:induction false} RunQueueKeys<T>(m: map<T, int>, e: int, q: seq<Job<T>>)
    ensures forall k :: k in RunQueue(m, e, q) <==> k in m || exists i :: 0 <= i < |q| && q[i].id == k
    decreases |q|
  {
    if q != [] {
      var m' := Visit(m, e, q[0]);
      RunQueueKeys(m', m'[q[0].id], q[1..]);
      forall k ensures k in RunQueue(m, e, q) <==> k in m || exists i :: 0 <= i < |q| && q[i].id == k {
        if exists i :: 0 <= i < |q| && q[i].id == k {
          var i :| 0 <= i < |q| && q[i].id == k;
          if i > 0 {
            assert q[1..][i - 1].id == k;
          }
        }
        if exists i :: 0 <= i < |q[1..]| && q[1..][i].id == k {
          var i :| 0 <= i < |q[1..]| && q[1..][i].id == k;
          assert q[i + 1].id == k;
        }
      }
    }
  }

  /** The annealing dictionary holds exactly the starting keys and the scheduled tasks. */
  lemma {:induction false} RunAllKeys<T>(m: map<T, int>, s: Queues<T>)
    ensures forall k :: k in RunAll(m, s) <==> k in m || Scheduled(s, k)
    ensures forall j :: j in Flatten(s) ==> j.id in RunAll(m, s)
    decreases |s|
  {
    if s != [] {
      var m' := RunQueue(m, 0, s[0]);
      RunQueueKeys(m, 0, s[0]);
      RunAllKeys(m', s[1..]);
      forall k ensures k in RunAll(m, s) <==> k in m || Scheduled(s, k) {
        if Scheduled(s, k) {
          var p, i :| 0 <= p < |s| && 0 <= i < |s[p]| && s[p][i].id == k;
          if p > 0 {
            assert s[1..][p - 1][i].id == k;
          }
        }
        if Scheduled(s[1..], k) {
          var p, i :| 0 <= p < |s[1..]| && 0 <= i < |s[1..][p]| && s[1..][p][i].id == k;
          assert s[p + 1][i].id == k;
        }
      }
      forall j | j in Flatten(s) ensures j.id in RunAll(m, s) {
        FlattenMember(s, j);
        var p :| 0 <= p < |s| && j in s[p];
        var i :| 0 <= i < |s[p]| && s[p][i] == j;
        assert Scheduled(s, j.id);
      }
    }
  }

  // ---------------------------------------------------------------------------
  // What the recorded end times guarantee when every task is scheduled once.

  /** No task is scheduled twice in the queue. */
  predicate DistinctQueue<T(==)>(q: seq<Job<T>>) {
    forall i, j :: 0 <= i < |q| && 0 <= j < |q| && i != j ==> q[i].id != q[j].id
  }

  /** No task is scheduled twice in the whole schedule. */
  predicate Distinct<T(==)>(s: Queues<T>) {
    forall p, i, p', i' ::
      (0 <= p < |s| && 0 <= i < |s[p]| && 0 <= p' < |s| && 0 <= i' < |s[p']| && (p != p' || i != i'))
      ==> s[p][i].id != s[p'][i'].id
  }

  /** Every entry of `m` is still in `r`, with the same value. */
  ghost predicate Keeps<T>(m: map<T, int>, r: map<T, int>) {
    forall k :: k in m ==> k in r && r[k] == m[k]
  }

  /** Every task of the queue has an entry in `r`. */
  ghost predicate Records<T>(q: seq<Job<T>>, r: map<T, int>) {
    forall i :: 0 <= i < |q| ==> q[i].id in r
  }

  /** Each task of the queue ends at least `duration` after its predecessor, the first
      one at least `duration` after the processor time `e` the queue started with. */
  ghost predicate QueueChain<T>(q: seq<Job<T>>, e: int, r: map<T, int>) {
    Records(q, r) &&
    forall i {:trigger q[i]} :: 0 <= i < |q| ==> r[q[i].id] >= (if i == 0 then e else r[q[i - 1].id]) + q[i].duration
  }

  /** Each task ends at least `duration` after every dependency already recorded in `m`. */
  ghost predicate AfterRecorded<T>(q: seq<Job<T>>, m: map<T, int>, r: map<T, int>) {
    Records(q, r) &&
    forall i, d :: 0 <= i < |q| && d in q[i].deps && d in m ==> r[q[i].id] >= m[d] + q[i].duration
  }

  /** Each task ends at least `duration` after every dependency that stands earlier in its queue. */
  ghost predicate AfterEarlier<T>(q: seq<Job<T>>, r: map<T, int>) {
    Records(q, r) &&
    forall i, j :: 0 <= j < i < |q| && q[j].id in q[i].deps ==> r[q[i].id] >= r[q[j].id] + q[i].duration
  }

  /** Each task ends at least `duration` after every dependency scheduled in an earlier queue. */
  ghost predicate AfterEarlierQueues<T>(s: Queues<T>, r: map<T, int>) {
    (forall p :: 0 <= p < |s| ==> Records(s[p], r)) &&
    forall p, i, p', i' ::
      (0 <= p' < p < |s| && 0 <= i < |s[p]| && 0 <= i' < |s[p']| && s[p'][i'].id in s[p][i].deps)
      ==> r[s[p][i].id] >= r[s[p'][i'].id] + s[p][i].duration
  }

  /** Within one queue, with every task scheduled once and none recorded before:
      earlier entries keep their values, each task ends at least `duration` after
      its predecessor (after `e` for the first one), and at least `duration` after
      every dependency that was recorded before the queue or that stands earlier
      in the queue. */
  lemma {:induction false} QueueEndTimes<T>(m: map<T, int>, e: int, q: seq<Job<T>>)
    requires DistinctQueue(q)
    requires forall i :: 0 <= i < |q| ==> q[i].id !in m
    ensures Keeps(m, RunQueue(m, e, q))
    ensures QueueChain(q, e, RunQueue(m, e, q))
    ensures AfterRecorded(q, m, RunQueue(m, e, q))
    ensures AfterEarlier(q, RunQueue(m, e, q))
    decreases |q|
  {
    if q != [] {
      var m' := Visit(m, e, q[0]);
      var rest := q[1..];
      forall i | 0 <= i < |rest| ensures rest[i].id !in m' {
        assert rest[i] == q[i + 1] && q[i + 1].id != q[0].id;
      }
      assert DistinctQueue(rest) by {
        forall i, j | 0 <= i < |rest| && 0 <= j < |rest| && i != j ensures rest[i].id != rest[j].id {
          assert rest[i] == q[i + 1] && rest[j] == q[j + 1];
        }
      }
      QueueEndTimes(m', m'[q[0].id], rest);
      var r := RunQueue(m, e, q);
      assert r == RunQueue(m', m'[q[0].id], rest);
      ChainExtends(m, e, q, r);
      RecordedExtends(m, e, q, r);
      EarlierExtends(m, e, q, r);
    }
  }

  /** The queue chain of the tasks after the first extends to the whole queue. */
  lemma ChainExtends<T>(m: map<T, int>, e: int, q: seq<Job<T>>, r: map<T, int>)
    requires q != [] && Keeps(Visit(m, e, q[0]), r)
    requires QueueChain(q[1..], Visit(m, e, q[0])[q[0].id], r)
    ensures QueueChain(q, e, r)
  {
    var v := Visit(m, e, q[0])[q[0].id];
    var rest := q[1..];
    assert Records(q, r) by {
      forall i | 0 < i < |q| ensures q[i].id in r {
        assert rest[i - 1] == q[i];
      }
    }
    forall i | 0 <= i < |q|
      ensures r[q[i].id] >= (if i == 0 then e else r[q[i - 1].id]) + q[i].duration
    {
      if i == 1 {
        assert r[rest[0].id] >= v + rest[0].duration;
      } else if i > 1 {
        assert rest[i - 1] == q[i] && rest[i - 2] == q[i - 1];
        assert r[rest[i - 1].id] >= r[rest[i - 2].id] + rest[i - 1].duration;
      }
    }
  }

  /** The first task ends after its recorded dependencies because the visit takes their
      largest end; the later tasks inherit the bound from the dictionary after the visit,
      which keeps every entry recorded before. */
  lemma RecordedExtends<T>(m: map<T, int>, e: int, q: seq<Job<T>>, r: map<T, int>)
    requires q != [] && q[0].id !in m && Keeps(Visit(m, e, q[0]), r)
    requires AfterRecorded(q[1..], Visit(m, e, q[0]), r)
    ensures AfterRecorded(q, m, r)
  {
    var j0, m' := q[0], Visit(m, e, q[0]);
    var rest := q[1..];
    assert Records(q, r) by {
      forall i | 0 < i < |q| ensures q[i].id in r {
        assert rest[i - 1] == q[i];
      }
    }
    forall i, d | 0 <= i < |q| && d in q[i].deps && d in m
      ensures r[q[i].id] >= m[d] + q[i].duration
    {
      assert d != j0.id;
      if i == 0 {
        DependenciesEndIsMax(m[j0.id := 0], j0.deps);
        assert Lookup(m[j0.id := 0], d) == m[d];
      } else {
        assert rest[i - 1] == q[i];
        assert d in m' && m'[d] == m[d];
      }
    }
  }

  /** A dependency that stands first in the queue is recorded by the first visit, so
      the later tasks end after it; the other pairs come from the rest of the queue. */
  lemma EarlierExtends<T>(m: map<T, int>, e: int, q: seq<Job<T>>, r: map<T, int>)
    requires q != [] && Keeps(Visit(m, e, q[0]), r)
    requires AfterRecorded(q[1..], Visit(m, e, q[0]), r) && AfterEarlier(q[1..], r)
    ensures AfterEarlier(q, r)
  {
    var m' := Visit(m, e, q[0]);
    var rest := q[1..];
    assert Records(q, r) by {
      forall i | 0 < i < |q| ensures q[i].id in r {
        assert rest[i - 1] == q[i];
      }
    }
    forall i, j | 0 <= j < i < |q| && q[j].id in q[i].deps
      ensures r[q[i].id] >= r[q[j].id] + q[i].duration
    {
      assert rest[i - 1] == q[i];
      if j > 0 {
        assert rest[j - 1] == q[j];
      } else {
        assert q[j].id in m';
      }
    }
  }

  /** QueueChain, AfterEarlier and AfterRecorded survive later visits that keep the entries. */
  lemma QueueFactsKept<T>(q: seq<Job<T>>, e: int, m: map<T, int>, a: map<T, int>, r: map<T, int>)
    requires Keeps(a, r)
    requires QueueChain(q, e, a) && AfterEarlier(q, a) && AfterRecorded(q, m, a)
    ensures QueueChain(q, e, r) && AfterEarlier(q, r) && AfterRecorded(q, m, r)
  {
    assert Records(q, r);
    assert QueueChain(q, e, r) by {
      forall i | 0 <= i < |q| ensures r[q[i].id] >= (if i == 0 then e else r[q[i - 1].id]) + q[i].duration {
        assert q[i].id in a && a[q[i].id] >= (if i == 0 then e else a[q[i - 1].id]) + q[i].duration;
        if i > 0 {
          assert q[i - 1].id in a;
        }
      }
    }
    assert AfterRecorded(q, m, r) by {
      forall i, d | 0 <= i < |q| && d in q[i].deps && d in m ensures r[q[i].id] >= m[d] + q[i].duration {
        assert q[i].id in a;
      }
    }
    assert AfterEarlier(q, r) by {
      forall i, j | 0 <= j < i < |q| && q[j].id in q[i].deps ensures r[q[i].id] >= r[q[j].id] + q[i].duration {
        assert q[i].id in a && q[j].id in a;
      }
    }
  }

  /** After the first queue runs, the later queues are still distinct and none
      of their tasks has an entry yet. */
  lemma RestUnvisited<T>(m: map<T, int>, s: Queues<T>)
    requires s != [] && Distinct(s)
    requires forall p, i :: 0 <= p < |s| && 0 <= i < |s[p]| ==> s[p][i].id !in m
    ensures DistinctQueue(s[0]) && Distinct(s[1..])
    ensures forall p, i :: 0 <= p < |s[1..]| && 0 <= i < |s[1..][p]| ==> s[1..][p][i].id !in RunQueue(m, 0, s[0])
  {
    var q: seq<Job<T>>, rest: Queues<T> := s[0], s[1..];
    var m' := RunQueue(m, 0, q);
    RunQueueKeys(m, 0, q);
    forall i, j | 0 <= i < |q| && 0 <= j < |q| && i != j ensures q[i].id != q[j].id {
      assert s[0][i] == q[i] && s[0][j] == q[j];
    }
    forall p, i | 0 <= p < |rest| && 0 <= i < |rest[p]| ensures rest[p][i].id !in m' {
      assert rest[p][i] == s[p + 1][i];
      forall i' | 0 <= i' < |q| ensures q[i'].id != rest[p][i].id {
        assert q[i'] == s[0][i'];
      }
    }
    forall p, i, p', i' |
      0 <= p < |rest| && 0 <= i < |rest[p]| && 0 <= p' < |rest| && 0 <= i' < |rest[p']| && (p != p' || i != i')
      ensures rest[p][i].id != rest[p'][i'].id
    {
      assert rest[p][i] == s[p + 1][i] && rest[p'][i'] == s[p' + 1][i'];
    }
  }

  /** The schedule-wide form of QueueEndTimes: every task ends at least `duration`
      after its queue predecessor (after time 0 when first), after each dependency
      recorded before the run, after each dependency earlier in its queue, and after
      each dependency scheduled in an earlier queue. */
  lemma {:induction false} ScheduleEndTimes<T>(m: map<T, int>, s: Queues<T>)
    requires Distinct(s)
    requires forall p, i :: 0 <= p < |s| && 0 <= i < |s[p]| ==> s[p][i].id !in m
    ensures Keeps(m, RunAll(m, s))
    ensures forall p :: 0 <= p < |s| ==> QueueChain(s[p], 0, RunAll(m, s))
    ensures forall p :: 0 <= p < |s| ==> AfterRecorded(s[p], m, RunAll(m, s))
    ensures forall p :: 0 <= p < |s| ==> AfterEarlier(s[p], RunAll(m, s))
    ensures AfterEarlierQueues(s, RunAll(m, s))
    decreases |s|
  {
    if s != [] {
      var q := s[0];
      var rest := s[1..];
      assert forall p :: 0 <= p < |rest| ==> rest[p] == s[p + 1];
      RestUnvisited(m, s);
      QueueEndTimes(m, 0, q);
      var m' := RunQueue(m, 0, q);
      ScheduleEndTimes(m', rest);
      var r := RunAll(m, s);
      assert r == RunAll(m', rest);
      QueueFactsKept(q, 0, m, m', r);
      LaterQueuesKept(m, m', s, r);
      EarlierQueuesExtend(m', s, r);
    }
  }

  /** The per-queue facts of the queues after the first carry over from the
      dictionary after the first queue to the one before it, which it keeps. */
  lemma LaterQueuesKept<T>(m: map<T, int>, m': map<T, int>, s: Queues<T>, r: map<T, int>)
    requires s != [] && Keeps(m, m')
    requires QueueChain(s[0], 0, r) && AfterRecorded(s[0], m, r) && AfterEarlier(s[0], r)
    requires forall p :: 0 <= p < |s[1..]| ==> QueueChain(s[1..][p], 0, r)
    requires forall p :: 0 <= p < |s[1..]| ==> AfterRecorded(s[1..][p], m', r)
    requires forall p :: 0 <= p < |s[1..]| ==> AfterEarlier(s[1..][p], r)
    ensures forall p :: 0 <= p < |s| ==> QueueChain(s[p], 0, r) && AfterRecorded(s[p], m, r) && AfterEarlier(s[p], r)
  {
    var rest := s[1..];
    forall p | 0 < p < |s|
      ensures QueueChain(s[p], 0, r) && AfterRecorded(s[p], m, r) && AfterEarlier(s[p], r)
    {
      assert s[p] == rest[p - 1];
      assert AfterRecorded(rest[p - 1], m', r);
      forall i, d | 0 <= i < |s[p]| && d in s[p][i].deps && d in m
        ensures r[s[p][i].id] >= m[d] + s[p][i].duration
      {
        assert d in m' && m'[d] == m[d];
      }
    }
  }

  /** A dependency in the first queue was recorded before the later queues ran; the
      pairs among the later queues come from their own run. */
  lemma EarlierQueuesExtend<T>(m': map<T, int>, s: Queues<T>, r: map<T, int>)
    requires s != [] && Records(s[0], m') && Keeps(m', r)
    requires forall p :: 0 <= p < |s[1..]| ==> AfterRecorded(s[1..][p], m', r)
    requires AfterEarlierQueues(s[1..], r)
    ensures AfterEarlierQueues(s, r)
  {
    var rest := s[1..];
    forall p | 0 <= p < |s| ensures Records(s[p], r) {
      if p > 0 {
        assert s[p] == rest[p - 1];
      } else {
        forall i | 0 <= i < |s[0]| ensures s[0][i].id in r {
          assert s[0][i].id in m';
        }
      }
    }
    forall p, i, p', i' |
      0 <= p' < p < |s| && 0 <= i < |s[p]| && 0 <= i' < |s[p']| && s[p'][i'].id in s[p][i].deps
      ensures r[s[p][i].id] >= r[s[p'][i'].id] + s[p][i].duration
    {
      assert s[p] == rest[p - 1];
      if p' > 0 {
        assert s[p'] == rest[p' - 1];
      } else {
        assert AfterRecorded(rest[p - 1], m', r);
        assert s[p'][i'].id in m';
      }
    }
  }

  /** For the evaluator started on an empty dictionary, with every task scheduled
      once: each task ends at least `duration` after its queue predecessor (after
      time 0 when first), after each dependency earlier in its own queue and after
      each dependency in an earlier queue; and no task ends after the rating. */
  lemma EndTimesRespectSchedule<T>(s: Queues<T>)
    requires Distinct(s)
    ensures forall p :: 0 <= p < |s| ==> QueueChain(s[p], 0, RunAll(map[], s))
    ensures forall p :: 0 <= p < |s| ==> AfterEarlier(s[p], RunAll(map[], s))
    ensures AfterEarlierQueues(s, RunAll(map[], s))
    ensures EndTime(s).Ok? ==> forall p, i :: 0 <= p < |s| && 0 <= i < |s[p]| ==>
      s[p][i].id in RunAll(map[], s) && RunAll(map[], s)[s[p][i].id] <= EndTime(s).value
  {
    ScheduleEndTimes(map[], s);
    EndTimeIsMax(s);
    forall p, i | 0 <= p < |s| && 0 <= i < |s[p]|
      ensures EndTime(s).Ok? ==> s[p][i].id in RunAll(map[], s) && RunAll(map[], s)[s[p][i].id] <= EndTime(s).value
    {
      FlattenContains(s, p, i);
    }
  }

  // ---------------------------------------------------------------------------
  // Schedules in which no task depends on another scheduled task.

  /** The sum of the durations of a queue. */
  function Load<T>(q: seq<Job<T>>): int
    decreases |q|
  {
    if q == [] then 0 else q[0].duration + Load(q[1..])
  }

  /** The largest queue load, 0 when there are no queues. */
  function MaxLoad<T>(s: Queues<T>): (r: int)
    ensures forall p :: 0 <= p < |s| ==> Load(s[p]) <= r
    ensures s != [] ==> exists p :: 0 <= p < |s| && Load(s[p]) == r
    decreases |s|
  {
    if |s| == 0 then 0
    else if |s| == 1 then Load(s[0])
    else
      assert forall p :: 1 <= p < |s| ==> s[p] == s[1..][p - 1];
      Max(Load(s[0]), MaxLoad(s[1..]))
  }

  predicate NonNegativeDurations<T>(s: Queues<T>) {
    forall p, i :: 0 <= p < |s| && 0 <= i < |s[p]| ==> s[p][i].duration >= 0
  }

  /** No task lists a scheduled task among its dependencies. */
  predicate NoInternalDependencies<T(==)>(s: Queues<T>) {
    forall p, i, p', i' ::
      (0 <= p < |s| && 0 <= i < |s[p]| && 0 <= p' < |s| && 0 <= i' < |s[p']|)
      ==> s[p'][i'].id !in s[p][i].deps
  }

  /** With non-negative durations, a prefix of a queue weighs between 0 and the whole queue. */
  lemma {:induction false} LoadPrefix<T>(q: seq<Job<T>>, k: int)
    requires 0 <= k <= |q|
    requires forall i :: 0 <= i < |q| ==> q[i].duration >= 0
    ensures 0 <= Load(q[..k]) <= Load(q)
    decreases |q|
  {
    if q != [] {
      LoadPrefix(q[1..], if k == 0 then 0 else k - 1);
      if k > 0 {
        assert q[..k][1..] == q[1..][..k - 1];
      }
    }
  }

  /** One queue whose dependencies are never recorded: every task ends at the
      queue's starting time plus the durations up to and including its own. */
  lemma {:induction false} QueueLoads<T>(m: map<T, int>, e: int, q: seq<Job<T>>)
    requires DistinctQueue(q) && e >= 0
    requires forall i :: 0 <= i < |q| ==> q[i].id !in m && q[i].duration >= 0
    requires forall i, d :: 0 <= i < |q| && d in q[i].deps ==> d !in m
    requires forall i, j :: 0 <= i < |q| && 0 <= j < |q| ==> q[j].id !in q[i].deps
    ensures Keeps(m, RunQueue(m, e, q)) && Records(q, RunQueue(m, e, q))
    ensures forall i :: 0 <= i < |q| ==> RunQueue(m, e, q)[q[i].id] == e + Load(q[..i + 1])
    decreases |q|
  {
    if q != [] {
      var j0 := q[0];
      var m0 := m[j0.id := 0];
      var m' := Visit(m, e, j0);
      forall d | d in j0.deps ensures Lookup(m0, d) == 0 {
        assert d != j0.id;
      }
      DependenciesEndIsMax(m0, j0.deps);
      assert j0.deps != [] ==> DependenciesEnd(m0, j0.deps) == 0;
      var v := m'[j0.id];
      assert v == e + j0.duration;
      var rest := q[1..];
      assert forall i :: 0 <= i < |rest| ==> rest[i] == q[i + 1];
      forall i | 0 <= i < |rest| ensures rest[i].id !in m' {
        assert q[i + 1].id != q[0].id;
      }
      forall i, d | 0 <= i < |rest| && d in rest[i].deps ensures d !in m' {
        assert d in q[i + 1].deps;
      }
      QueueLoads(m', v, rest);
      var r := RunQueue(m, e, q);
      assert r == RunQueue(m', v, rest);
      assert Records(q, r) by {
        forall i | 0 <= i < |q| ensures q[i].id in r {
          if i > 0 {
            assert rest[i - 1] == q[i];
          }
        }
      }
      forall i | 0 <= i < |q| ensures r[q[i].id] == e + Load(q[..i + 1]) {
        assert q[..i + 1][1..] == rest[..i];
        if i > 0 {
          assert rest[i - 1] == q[i];
        }
      }
    }
  }

  /** The schedule-wide form of QueueLoads. */
  lemma {:induction false} ScheduleLoads<T>(m: map<T, int>, s: Queues<T>)
    requires Distinct(s) && NonNegativeDurations(s) && NoInternalDependencies(s)
    requires forall p, i :: 0 <= p < |s| && 0 <= i < |s[p]| ==> s[p][i].id !in m
    requires forall p, i, d :: 0 <= p < |s| && 0 <= i < |s[p]| && d in s[p][i].deps ==> d !in m
    ensures Keeps(m, RunAll(m, s))
    ensures forall p, i :: 0 <= p < |s| && 0 <= i < |s[p]| ==>
              s[p][i].id in RunAll(m, s) && RunAll(m, s)[s[p][i].id] == Load(s[p][..i + 1])
    decreases |s|
  {
    if s != [] {
      var q := s[0];
      var rest := s[1..];
      assert forall p :: 0 <= p < |rest| ==> rest[p] == s[p + 1];
      RestUnvisited(m, s);
      QueueLoads(m, 0, q);
      var m' := RunQueue(m, 0, q);
      RestIndependent(m, s);
      ScheduleLoads(m', rest);
      var r := RunAll(m, s);
      assert r == RunAll(m', rest);
      forall p, i | 0 <= p < |s| && 0 <= i < |s[p]|
        ensures s[p][i].id in r && r[s[p][i].id] == Load(s[p][..i + 1])
      {
        if p > 0 {
          assert s[p] == rest[p - 1];
        } else {
          assert q[i].id in m';
        }
      }
    }
  }

  /** RestUnvisited for ScheduleLoads: the later queues also keep having no
      internal dependencies, and none of their dependencies has an entry yet. */
  lemma RestIndependent<T>(m: map<T, int>, s: Queues<T>)
    requires s != [] && Distinct(s) && NoInternalDependencies(s)
    requires forall p, i :: 0 <= p < |s| && 0 <= i < |s[p]| ==> s[p][i].id !in m
    requires forall p, i, d :: 0 <= p < |s| && 0 <= i < |s[p]| && d in s[p][i].deps ==> d !in m
    ensures DistinctQueue(s[0]) && Distinct(s[1..]) && NoInternalDependencies(s[1..])
    ensures forall p, i :: 0 <= p < |s[1..]| && 0 <= i < |s[1..][p]| ==> s[1..][p][i].id !in RunQueue(m, 0, s[0])
    ensures forall p, i, d :: 0 <= p < |s[1..]| && 0 <= i < |s[1..][p]| && d in s[1..][p][i].deps ==>
              d !in RunQueue(m, 0, s[0])
  {
    RestUnvisited(m, s);
    var q: seq<Job<T>>, rest: Queues<T> := s[0], s[1..];
    var m' := RunQueue(m, 0, q);
    RunQueueKeys(m, 0, q);
    forall p, i, d | 0 <= p < |rest| && 0 <= i < |rest[p]| && d in rest[p][i].deps ensures d !in m' {
      assert rest[p][i] == s[p + 1][i];
      forall i' | 0 <= i' < |q| ensures q[i'].id != d {
        assert q[i'] == s[0][i'];
      }
    }
    forall p, i, p', i' | 0 <= p < |rest| && 0 <= i < |rest[p]| && 0 <= p' < |rest| && 0 <= i' < |rest[p']|
      ensures rest[p'][i'].id !in rest[p][i].deps
    {
      assert rest[p][i] == s[p + 1][i] && rest[p'][i'] == s[p' + 1][i'];
    }
  }

  /** When no scheduled task depends on another scheduled task (dependency lookups
      all read the default 0), the rating is the largest per-queue sum of durations. */
  lemma EndTimeIsLargestLoad<T>(s: Queues<T>)
    requires Distinct(s) && NonNegativeDurations(s) && NoInternalDependencies(s)
    requires Flatten(s) != []
    ensures EndTime(s) == Ok(MaxLoad(s))
  {
    ScheduleLoads(map[], s);
    EndTimeIsMax(s);
    LargestEntryIsLargestLoad(s, RunAll(map[], s), EndTime(s).value);
  }

  /** The step of EndTimeIsLargestLoad that needs no distinctness: a dictionary that
      records prefix loads and whose largest scheduled entry is `v` has v == MaxLoad. */
  lemma LargestEntryIsLargestLoad<T>(s: Queues<T>, r: map<T, int>, v: int)
    requires NonNegativeDurations(s)
    requires forall p, i :: 0 <= p < |s| && 0 <= i < |s[p]| ==>
               s[p][i].id in r && r[s[p][i].id] == Load(s[p][..i + 1])
    requires forall j :: j in Flatten(s) ==> j.id in r && r[j.id] <= v
    requires exists j :: j in Flatten(s) && j.id in r && r[j.id] == v
    ensures v == MaxLoad(s)
  {
    EntryWithinMaxLoad(s, r, v);
    MaxLoadWithinEntries(s, r, v);
  }

  /** A scheduled entry that records a prefix load lies between 0 and MaxLoad. */
  lemma EntryWithinMaxLoad<T>(s: Queues<T>, r: map<T, int>, v: int)
    requires NonNegativeDurations(s)
    requires forall p, i :: 0 <= p < |s| && 0 <= i < |s[p]| ==>
               s[p][i].id in r && r[s[p][i].id] == Load(s[p][..i + 1])
    requires exists j :: j in Flatten(s) && j.id in r && r[j.id] == v
    ensures 0 <= v <= MaxLoad(s)
  {
    var j :| j in Flatten(s) && j.id in r && r[j.id] == v;
    FlattenMember(s, j);
    var p :| 0 <= p < |s| && j in s[p];
    var i :| 0 <= i < |s[p]| && s[p][i] == j;
    LoadPrefix(s[p], i + 1);
  }

  /** When every scheduled entry is at most v >= 0, so is the largest queue load: the
      last task of a queue records the whole queue's load. */
  lemma MaxLoadWithinEntries<T>(s: Queues<T>, r: map<T, int>, v: int)
    requires 0 <= v
    requires forall p, i :: 0 <= p < |s| && 0 <= i < |s[p]| ==>
               s[p][i].id in r && r[s[p][i].id] == Load(s[p][..i + 1])
    requires forall j :: j in Flatten(s) ==> j.id in r && r[j.id] <= v
    ensures MaxLoad(s) <= v
  {
    if s != [] {
      var p' :| 0 <= p' < |s| && Load(s[p']) == MaxLoad(s);
      if s[p'] != [] {
        var last := |s[p']| - 1;
        assert s[p'][..last + 1] == s[p'];
        FlattenContains(s, p', last);
      }
    }
  }

  // ---------------------------------------------------------------------------
  // The genetic evaluator: it also records each unseen dependency with end time 0.

  /** The dependency loop of the genetic evaluator: every dependency without an
      entry gets the entry 0; existing entries are left alone. */
  function RecordDependencies<T(==)>(m: map<T, int>, deps: seq<T>): map<T, int>
    decreases |deps|
  {
    if deps == [] then m
    else RecordDependencies(WithEntry(m, deps[0]), deps[1..])
  }

  /** The dependency loop adds exactly the dependencies without an entry, each
      with 0, and leaves existing entries alone. */
  lemma {:induction false} RecordedEntries<T>(m: map<T, int>, deps: seq<T>)
    ensures RecordDependencies(m, deps).Keys == m.Keys + set d | d in deps
    ensures forall k :: k in m ==> RecordDependencies(m, deps)[k] == m[k]
    ensures forall k :: k in RecordDependencies(m, deps) && k !in m ==> RecordDependencies(m, deps)[k] == 0
    decreases |deps|
  {
    if deps != [] {
      RecordedEntries(WithEntry(m, deps[0]), deps[1..]);
      assert deps == [deps[0]] + deps[1..];
    }
  }

  /** One step of the genetic evaluator. */
  function VisitRecording<T(==)>(m: map<T, int>, endTime: int, j: Job<T>): map<T, int> {
    var m0 := WithEntry(m, j.id);
    var m1 := RecordDependencies(m0, j.deps);
    m1[j.id := Max(endTime, DependenciesEnd(m1, j.deps)) + j.duration]
  }

  function RunQueueRecording<T(==)>(m: map<T, int>, endTime: int, q: seq<Job<T>>): map<T, int>
    decreases |q|
  {
    if q == [] then m
    else
      var m' := VisitRecording(m, endTime, q[0]);
      RunQueueRecording(m', m'[q[0].id], q[1..])
  }

  function RunAllRecording<T(==)>(m: map<T, int>, s: Queues<T>): map<T, int>
    decreases |s|
  {
    if s == [] then m else RunAllRecording(RunQueueRecording(m, 0, s[0]), s[1..])
  }

  /** The dependency loop taken one dependency further. */
  lemma {:induction false} RecordAppend<T>(m: map<T, int>, deps: seq<T>, d: T)
    ensures RecordDependencies(m, deps + [d]) == WithEntry(RecordDependencies(m, deps), d)
    decreases |deps|
  {
    if deps != [] {
      assert (deps + [d])[1..] == deps[1..] + [d];
      RecordAppend(WithEntry(m, deps[0]), deps[1..], d);
    }
  }

  /** One visit of the genetic evaluator, given the dictionary after the dependency
      loop and the largest dependency end it read. */
  lemma RecordingVisit<T>(m: map<T, int>, endTime: int, j: Job<T>, recorded: map<T, int>, dependenciesEnd: int)
    requires recorded == RecordDependencies(WithEntry(m, j.id), j.deps)
    requires dependenciesEnd == DependenciesEnd(WithEntry(m, j.id), j.deps)
    ensures VisitRecording(m, endTime, j) == recorded[j.id := Max(endTime, dependenciesEnd) + j.duration]
  {
    RecordExtends(WithEntry(m, j.id), WithEntry(m, j.id), j.deps);
    DependenciesEndExtends(WithEntry(m, j.id), recorded, j.deps);
  }

  /** The genetic evaluator's processor loop taken one queue further. */
  lemma RecordingQueueNext<T>(m: map<T, int>, s: Queues<T>, p: int)
    requires 0 <= p < |s|
    ensures RunAllRecording(m, s[p..]) == RunAllRecording(RunQueueRecording(m, 0, s[p]), s[p + 1..])
  {
    assert s[p..][0] == s[p] && s[p..][1..] == s[p + 1..];
  }

  /** `v` is the largest value of the dictionary (`taskEndTime.Values.Max()`). */
  ghost predicate IsMaxValue<T>(m: map<T, int>, v: int) {
    (exists k :: k in m && m[k] == v) && forall k :: k in m ==> m[k] <= v
  }

  /** `g` holds everything `a` holds with the same values, and 0 for its other keys. */
  ghost predicate Extends<T>(a: map<T, int>, g: map<T, int>) {
    Keeps(a, g) && forall k :: k in g && k !in a ==> g[k] == 0
  }

  lemma {:induction false} DependenciesEndExtends<T>(a: map<T, int>, g: map<T, int>, deps: seq<T>)
    requires Extends(a, g)
    ensures DependenciesEnd(a, deps) == DependenciesEnd(g, deps)
    decreases |deps|
  {
    if |deps| > 1 {
      DependenciesEndExtends(a, g, deps[..|deps| - 1]);
    }
  }

  lemma EntryExtends<T>(a: map<T, int>, g: map<T, int>, k: T)
    requires Extends(a, g)
    ensures Extends(WithEntry(a, k), WithEntry(g, k))
  {
    var a0, g0 := WithEntry(a, k), WithEntry(g, k);
    forall x | x in a0 ensures x in g0 && g0[x] == a0[x] {
      if x != k {
        assert x in a;
      }
    }
    forall x | x in g0 && x !in a0 ensures g0[x] == 0 {
      assert x in g && x !in a;
    }
  }

  lemma RecordExtends<T>(a: map<T, int>, g: map<T, int>, deps: seq<T>)
    requires Extends(a, g)
    ensures Extends(a, RecordDependencies(g, deps))
  {
    var g1 := RecordDependencies(g, deps);
    RecordedEntries(g, deps);
    forall x | x in g1 && x !in a ensures g1[x] == 0 {
      if x in g {
        assert g1[x] == g[x];
      }
    }
  }

  lemma UpdateExtends<T>(a: map<T, int>, g: map<T, int>, k: T, v: int)
    requires Extends(a, g)
    ensures Extends(a[k := v], g[k := v])
  {
    var a1, g1 := a[k := v], g[k := v];
    forall x | x in a1 ensures x in g1 && g1[x] == a1[x] {
      if x != k {
        assert x in a;
      }
    }
    forall x | x in g1 && x !in a1 ensures g1[x] == 0 {
      assert x in g && x !in a;
    }
  }

  lemma VisitExtends<T>(a: map<T, int>, g: map<T, int>, e: int, j: Job<T>)
    requires Extends(a, g)
    ensures Extends(Visit(a, e, j), VisitRecording(g, e, j))
    ensures Visit(a, e, j)[j.id] == VisitRecording(g, e, j)[j.id]
  {
    var a0, g0 := WithEntry(a, j.id), WithEntry(g, j.id);
    EntryExtends(a, g, j.id);
    var g1 := RecordDependencies(g0, j.deps);
    RecordExtends(a0, g0, j.deps);
    DependenciesEndExtends(a0, g1, j.deps);
    UpdateExtends(a0, g1, j.id, Max(e, DependenciesEnd(a0, j.deps)) + j.duration);
  }

  lemma {:induction false} RunQueueExtends<T>(a: map<T, int>, g: map<T, int>, e: int, q: seq<Job<T>>)
    requires Extends(a, g)
    ensures Extends(RunQueue(a, e, q), RunQueueRecording(g, e, q))
    decreases |q|
  {
    if q != [] {
      VisitExtends(a, g, e, q[0]);
      var a' := Visit(a, e, q[0]);
      RunQueueExtends(a', VisitRecording(g, e, q[0]), a'[q[0].id], q[1..]);
    }
  }

  lemma {:induction false} RunAllExtends<T>(a: map<T, int>, g: map<T, int>, s: Queues<T>)
    requires Extends(a, g)
    ensures Extends(RunAll(a, s), RunAllRecording(g, s))
    decreases |s|
  {
    if s != [] {
      RunQueueExtends(a, g, 0, s[0]);
      RunAllExtends(RunQueue(a, 0, s[0]), RunQueueRecording(g, 0, s[0]), s[1..]);
    }
  }

  /** Queues without tasks leave the genetic dictionary as it was. */
  lemma {:induction false} RunAllRecordingIdle<T>(m: map<T, int>, s: Queues<T>)
    requires forall p :: 0 <= p < |s| ==> s[p] == []
    ensures RunAllRecording(m, s) == m
    decreases |s|
  {
    if s != [] {
      assert forall p :: 0 <= p < |s[1..]| ==> s[1..][p] == s[p + 1];
      RunAllRecordingIdle(m, s[1..]);
    }
  }

  /** With non-negative durations every end time the annealing evaluator records is non-negative. */
  lemma {:induction false} RunQueueNonNegative<T>(m: map<T, int>, e: int, q: seq<Job<T>>)
    requires e >= 0 && forall k :: k in m ==> m[k] >= 0
    requires forall i :: 0 <= i < |q| ==> q[i].duration >= 0
    ensures forall k :: k in RunQueue(m, e, q) ==> RunQueue(m, e, q)[k] >= 0
    decreases |q|
  {
    if q != [] {
      var m' := Visit(m, e, q[0]);
      RunQueueNonNegative(m', m'[q[0].id], q[1..]);
    }
  }

  lemma {:induction false} RunAllNonNegative<T>(m: map<T, int>, s: Queues<T>)
    requires forall k :: k in m ==> m[k] >= 0
    requires NonNegativeDurations(s)
    ensures forall k :: k in RunAll(m, s) ==> RunAll(m, s)[k] >= 0
    decreases |s|
  {
    if s != [] {
      RunQueueNonNegative(m, 0, s[0]);
      assert forall p :: 0 <= p < |s[1..]| ==> s[1..][p] == s[p + 1];
      RunAllNonNegative(RunQueue(m, 0, s[0]), s[1..]);
    }
  }

  /** Extra zero entries never raise a non-negative maximum. */
  lemma ExtendedMaximum<T>(a: map<T, int>, g: map<T, int>, v: int)
    requires Extends(a, g) && IsMaxValue(a, v) && v >= 0
    ensures IsMaxValue(g, v)
  {
    var k :| k in a && a[k] == v;
    assert g[k] == v;
    forall k' | k' in g ensures g[k'] <= v {
      if k' in a {
        assert g[k'] == a[k'];
      }
    }
  }

  /** The annealing rating is the largest value of the annealing dictionary, and is
      non-negative when durations are. */
  lemma RatingIsMaxValue<T>(s: Queues<T>)
    requires NonNegativeDurations(s)
    ensures EndTime(s).Ok? ==> IsMaxValue(RunAll(map[], s), EndTime(s).value) && EndTime(s).value >= 0
  {
    if EndTime(s).Ok? {
      var a := RunAll(map[], s);
      var v := EndTime(s).value;
      RunAllKeys(map[], s);
      RunAllNonNegative(map[], s);
      EndTimeIsMax(s);
      var w :| w in Flatten(s) && w.id in a && a[w.id] == v;
      forall k | k in a ensures a[k] <= v {
        assert Scheduled(s, k);
        var p, i :| 0 <= p < |s| && 0 <= i < |s[p]| && s[p][i].id == k;
        FlattenContains(s, p, i);
      }
    }
  }

  /** The genetic dictionary is empty exactly when no task is scheduled. */
  lemma RecordingEmpty<T>(s: Queues<T>)
    ensures RunAllRecording(map[], s) == map[] <==> Flatten(s) == []
  {
    var g := RunAllRecording(map[], s);
    RunAllExtends(map[], map[], s);
    if Flatten(s) == [] {
      FlattenEmpty(s);
      RunAllRecordingIdle(map[], s);
    } else {
      RunAllKeys(map[], s);
      var j := Flatten(s)[0];
      assert j.id in g;
    }
  }

  /** The two evaluators agree: with non-negative durations the genetic
      dictionary's largest value is the annealing rating, because the extra zero
      entries it records never raise the maximum. */
  lemma EvaluatorsAgree<T>(s: Queues<T>)
    requires NonNegativeDurations(s)
    ensures EndTime(s).Ok? ==> IsMaxValue(RunAllRecording(map[], s), EndTime(s).value)
  {
    if EndTime(s).Ok? {
      RunAllExtends(map[], map[], s);
      RatingIsMaxValue(s);
      ExtendedMaximum(RunAll(map[], s), RunAllRecording(map[], s), EndTime(s).value);
    }
  }
}
