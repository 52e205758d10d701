/** Rejection sampling of points inside a region, serially and split across
    worker processes.

    The random draws are an abstract candidate stream: a finite prefix of
    the (x, y) pairs `random.uniform` would produce, in draw order. The
    region is a sequence of geometry rows and an abstract containment test
    `contains(row, p)`; a candidate is accepted when some row contains it. */
module Sampler {
  import opened Results
  import opened Seqs

  /** A candidate lies in the region when at least one geometry row
      contains it. */
  ghost predicate Inside<R, P>(rows: seq<R>, contains: (R, P) -> bool, p: P)
  {
    exists i :: 0 <= i < |rows| && contains(rows[i], p)
  }

  /** The scan over the rows that stops at the first row containing `p`. */
  function IsWithin<R, P>(rows: seq<R>, contains: (R, P) -> bool, p: P): (within: bool)
    ensures within <==> Inside(rows, contains, p)
  {
    if |rows| == 0 then false
    else if contains(rows[0], p) then true
    else
      var rest := IsWithin(rows[1..], contains, p);
      assert Inside(rows, contains, p) ==> Inside(rows[1..], contains, p) by {
        if Inside(rows, contains, p) {
          var i :| 0 <= i < |rows| && contains(rows[i], p);
          assert i != 0;
          assert contains(rows[1..][i - 1], p);
        }
      }
      rest
  }

  /** The candidates of `draws` that pass the containment test, in draw
      order: a candidate that fails is dropped, one that passes is kept. */
  function Accepted<R, P>(rows: seq<R>, contains: (R, P) -> bool, draws: seq<P>): (acc: seq<P>)
    ensures |acc| <= |draws|
    ensures forall i :: 0 <= i < |acc| ==> acc[i] in draws && Inside(rows, contains, acc[i])
    ensures forall i :: 0 <= i < |draws| && Inside(rows, contains, draws[i]) ==> draws[i] in acc
  {
    if |draws| == 0 then []
    else
      var last := draws[|draws| - 1];
      assert draws == draws[..|draws| - 1] + [last];
      Accepted(rows, contains, draws[..|draws| - 1]) + (if IsWithin(rows, contains, last) then [last] else [])
  }

  /** Filtering a concatenation filters each part. */
  lemma {:induction false} AcceptedAppend<R, P>(rows: seq<R>, contains: (R, P) -> bool, a: seq<P>, b: seq<P>)
    ensures Accepted(rows, contains, a + b) == Accepted(rows, contains, a) + Accepted(rows, contains, b)
    decreases |b|
  {
    if |b| == 0 {
      assert a + b == a;
    } else {
      var b' := b[..|b| - 1];
      assert (a + b)[..|a + b| - 1] == a + b';
      AcceptedAppend(rows, contains, a, b');
    }
  }

  /** The serial `while len(points) < num_points` loop (and the identical
      loop inside each worker). It draws candidates from `draws` until
      `numPoints` have been accepted; `done` is false when the finite prefix
      runs out first, where the source would keep drawing. `used` is the
      number of candidates drawn. */
  method SampleWithin<R, P>(rows: seq<R>, contains: (R, P) -> bool, draws: seq<P>, numPoints: int)
    returns (points: seq<P>, used: nat, done: bool)
    ensures used <= |draws|
    ensures points == Accepted(rows, contains, draws[..used])
    ensures done <==> |Accepted(rows, contains, draws)| >= numPoints
    ensures done ==> |points| == Max0(numPoints)
    ensures done ==> points == Accepted(rows, contains, draws)[..Max0(numPoints)]
    ensures done ==> points == FirstAccepted(rows, contains, draws, numPoints)
    ensures !done ==> used == |draws| && points == Accepted(rows, contains, draws)
    ensures forall k :: 0 <= k < used ==> |Accepted(rows, contains, draws[..k])| < numPoints
  {
    points := [];
    used := 0;
    while |points| < numPoints && used < |draws|
      invariant used <= |draws|
      invariant points == Accepted(rows, contains, draws[..used])
      invariant |points| <= Max0(numPoints)
      invariant forall k :: 0 <= k < used ==> |Accepted(rows, contains, draws[..k])| < numPoints
    {
      var candidate := draws[used];
      assert draws[..used + 1][..used] == draws[..used];
      if IsWithin(rows, contains, candidate) {
        points := points + [candidate];
      }
      used := used + 1;
    }
    done := |points| >= numPoints;
    LoopExit(rows, contains, draws, used, numPoints);
  }

  /** What the sampling loop's exit state says about the whole stream: the
      loop has finished exactly when the stream holds enough accepted
      candidates, and then it holds the first `numPoints` of them. */
  lemma LoopExit<R, P>(rows: seq<R>, contains: (R, P) -> bool, draws: seq<P>, used: nat, numPoints: int)
    requires used <= |draws|
    requires |Accepted(rows, contains, draws[..used])| <= Max0(numPoints)
    requires |Accepted(rows, contains, draws[..used])| >= numPoints || used == |draws|
    ensures var pts := Accepted(rows, contains, draws[..used]);
      (|pts| >= numPoints <==> |Accepted(rows, contains, draws)| >= numPoints) &&
      (|pts| >= numPoints ==> |pts| == Max0(numPoints) && pts == Accepted(rows, contains, draws)[..Max0(numPoints)]) &&
      (|pts| < numPoints ==> used == |draws| && pts == Accepted(rows, contains, draws))
  {
    var pts := Accepted(rows, contains, draws[..used]);
    assert draws == draws[..used] + draws[used..];
    AcceptedAppend(rows, contains, draws[..used], draws[used..]);
    if |pts| < numPoints {
      assert draws[..used] == draws;
    }
  }

  /** Worker `i`'s share of `numPoints`: `numPoints // workers`, plus one
      for the first `numPoints % workers` workers (Python's `//` and `%`
      agree with Dafny's for a positive divisor). */
  function Share(numPoints: int, workers: nat, i: nat): int
    requires workers >= 1
  {
    numPoints / workers + (if i < numPoints % workers then 1 else 0)
  }

  lemma {:induction false} SumOfShares(numPoints: int, workers: nat, s: seq<int>)
    requires workers >= 1 && |s| <= workers
    requires forall i :: 0 <= i < |s| ==> s[i] == Share(numPoints, workers, i)
    ensures Sum(s) == |s| * (numPoints / workers) + Min(|s|, numPoints % workers)
  {
    if |s| > 0 {
      var k := |s| - 1;
      assert s == s[..k] + [s[k]];
      SumOfShares(numPoints, workers, s[..k]);
      SumAppend(s[..k], [s[k]]);
      assert Sum([s[k]]) == s[k];
      assert (k + 1) * (numPoints / workers) == k * (numPoints / workers) + numPoints / workers;
    }
  }

  /** One worker's share is `numPoints // workers` or one more, the extra
      going exactly to the first `numPoints % workers` workers; it is
      non-negative when `numPoints >= 0` and non-positive when `numPoints < 0`. */
  lemma ShareBounds(numPoints: int, workers: nat, i: nat)
    requires workers >= 1
    ensures Share(numPoints, workers, i) == numPoints / workers + 1 <==> i < numPoints % workers
    ensures numPoints >= 0 ==> Share(numPoints, workers, i) >= 0
    ensures numPoints < 0 ==> Share(numPoints, workers, i) <= 0
  {
    var q := numPoints / workers;
    var r := numPoints % workers;
    assert numPoints == workers * q + r && 0 <= r < workers;
    assert q >= 0 ==> workers * q >= 0;
    assert q < 0 ==> workers * q <= -(workers as int);
  }

  lemma SharesFacts(numPoints: int, workers: nat, shares: seq<int>)
    requires workers >= 1 && |shares| == workers
    requires forall i :: 0 <= i < workers ==> shares[i] == Share(numPoints, workers, i)
    ensures forall i :: 0 <= i < workers ==>
      shares[i] == numPoints / workers || shares[i] == numPoints / workers + 1
    ensures forall i :: 0 <= i < workers ==> (shares[i] == numPoints / workers + 1 <==> i < numPoints % workers)
    ensures forall i, j :: 0 <= i <= j < workers ==> 0 <= shares[i] - shares[j] <= 1
    ensures Sum(shares) == numPoints
    ensures numPoints >= 0 ==> forall i :: 0 <= i < workers ==> shares[i] >= 0
    ensures numPoints < 0 ==> forall i :: 0 <= i < workers ==> shares[i] <= 0
  {
    forall i | 0 <= i < workers
      ensures shares[i] == numPoints / workers + 1 <==> i < numPoints % workers
      ensures numPoints >= 0 ==> shares[i] >= 0
      ensures numPoints < 0 ==> shares[i] <= 0
    {
      ShareBounds(numPoints, workers, i);
    }
    forall i, j | 0 <= i <= j < workers
      ensures 0 <= shares[i] - shares[j] <= 1
    {
      ShareBounds(numPoints, workers, i);
      ShareBounds(numPoints, workers, j);
    }
    assert Sum(shares) == numPoints by {
      SumOfShares(numPoints, workers, shares);
      assert numPoints == workers * (numPoints / workers) + numPoints % workers;
    }
  }

  /** The shares of all workers: as even as possible, the extra points on
      the lowest-numbered workers, and together exactly `numPoints`. */
  function Shares(numPoints: int, workers: nat): (shares: seq<int>)
    requires workers >= 1
    ensures |shares| == workers
    ensures forall i :: 0 <= i < workers ==>
      shares[i] == numPoints / workers || shares[i] == numPoints / workers + 1
    ensures forall i :: 0 <= i < workers ==> (shares[i] == numPoints / workers + 1 <==> i < numPoints % workers)
    ensures forall i, j :: 0 <= i <= j < workers ==> 0 <= shares[i] - shares[j] <= 1
    ensures Sum(shares) == numPoints
    ensures numPoints >= 0 ==> forall i :: 0 <= i < workers ==> shares[i] >= 0
    ensures numPoints < 0 ==> forall i :: 0 <= i < workers ==> shares[i] <= 0
  {
    var shares := seq(workers, i requires 0 <= i < workers => Share(numPoints, workers, i));
    SharesFacts(numPoints, workers, shares);
    shares
  }

  /** Worker `i` is seeded with `seed + i`: consecutive seeds starting at
      the caller's, so the seeds are pairwise distinct. */
  function WorkerSeeds(seed: int, workers: nat): (seeds: seq<int>)
    ensures |seeds| == workers
    ensures workers > 0 ==> seeds[0] == seed
    ensures forall i :: 0 <= i < workers - 1 ==> seeds[i + 1] == seeds[i] + 1
    ensures forall i, j :: 0 <= i < j < workers ==> seeds[i] < seeds[j]
  {
    seq(workers, i => seed + i)
  }

  /** The first `n` accepted candidates of a stream (all of them when the
      stream holds fewer). */
  function FirstAccepted<R, P>(rows: seq<R>, contains: (R, P) -> bool, draws: seq<P>, n: int): (pts: seq<P>)
    ensures |pts| == Min(Max0(n), |Accepted(rows, contains, draws)|)
    ensures pts <= Accepted(rows, contains, draws)
  {
    var acc := Accepted(rows, contains, draws);
    acc[..Min(Max0(n), |acc|)]
  }

  /** The lists the workers put on the result queue, indexed by worker:
      worker `i` keeps the first accepted candidates of the stream seeded
      `seed + i`, as many as its share. */
  function WorkerPoints<R, P>(rows: seq<R>, contains: (R, P) -> bool, streamOf: int -> seq<P>,
                              seed: int, numPoints: int, workers: nat): (lists: seq<seq<P>>)
    requires workers >= 1
    ensures |lists| == workers
    ensures forall i :: 0 <= i < workers ==>
      lists[i] == FirstAccepted(rows, contains, streamOf(seed + i), Share(numPoints, workers, i))
  {
    var seeds := WorkerSeeds(seed, workers);
    var shares := Shares(numPoints, workers);
    seq(workers, i requires 0 <= i < workers =>
      FirstAccepted(rows, contains, streamOf(seeds[i]), shares[i]))
  }

  /** Worker `i`'s stream holds enough accepted candidates for its share, so
      its loop ends. */
  ghost predicate WorkerFinishes<R, P>(rows: seq<R>, contains: (R, P) -> bool, streamOf: int -> seq<P>,
                                       seed: int, numPoints: int, workers: nat, i: nat)
    requires workers >= 1
  {
    |Accepted(rows, contains, streamOf(seed + i))| >= Share(numPoints, workers, i)
  }

  /** Every worker process finishes. */
  ghost predicate WorkersFinish<R, P>(rows: seq<R>, contains: (R, P) -> bool, streamOf: int -> seq<P>,
                                      seed: int, numPoints: int, workers: nat)
    requires workers >= 1
  {
    forall i :: 0 <= i < workers ==> WorkerFinishes(rows, contains, streamOf, seed, numPoints, workers, i)
  }

  lemma NonNegativeReports(reports: seq<int>, shares: seq<int>)
    requires multiset(reports) == multiset(shares)
    requires forall i :: 0 <= i < |shares| ==> shares[i] >= 0
    ensures forall i :: 0 <= i < |reports| ==> reports[i] >= 0
  {
    forall i | 0 <= i < |reports|
      ensures reports[i] >= 0
    {
      assert reports[i] in multiset(shares);
    }
  }

  /** The progress loop `while completed_points < num_points`. The workers
      put their shares on the progress queue in completion order, so
      `reports` is the shares in some order. The loop never waits on an
      empty queue, stops as soon as the running total reaches `numPoints`
      (at once when `numPoints <= 0`), and ends with exactly that total. */
  method AwaitProgress(reports: seq<int>, numPoints: int, workers: nat) returns (completed: int, consumed: nat)
    requires workers >= 1
    requires multiset(reports) == multiset(Shares(numPoints, workers))
    ensures consumed <= |reports| == workers
    ensures completed == Sum(reports[..consumed])
    ensures completed == Max0(numPoints)
    ensures forall k :: 0 <= k < consumed ==> Sum(reports[..k]) < numPoints
  {
    var shares := Shares(numPoints, workers);
    assert |reports| == |multiset(reports)| == |shares|;
    SumPermutation(reports, shares);
    if numPoints >= 0 {
      NonNegativeReports(reports, shares);
    }
    assert reports[..|reports|] == reports;
    completed := 0;
    consumed := 0;
    while completed < numPoints
      invariant consumed <= |reports|
      invariant completed == Sum(reports[..consumed])
      invariant numPoints < 0 ==> consumed == 0 && completed == 0
      invariant numPoints >= 0 ==> completed <= numPoints
      invariant forall k :: 0 <= k < consumed ==> Sum(reports[..k]) < numPoints
      decreases |reports| - consumed
    {
      // All reports consumed would mean the total already reached numPoints.
      assert consumed < |reports|;
      assert reports[..consumed + 1] == reports[..consumed] + [reports[consumed]];
      SumAppend(reports[..consumed], [reports[consumed]]);
      assert Sum([reports[consumed]]) == reports[consumed];
      completed := completed + reports[consumed];
      consumed := consumed + 1;
      PrefixSumBounded(reports, consumed);
    }
  }

  lemma {:induction false} SumZeros(s: seq<int>)
    requires forall i :: 0 <= i < |s| ==> s[i] == 0
    ensures Sum(s) == 0
  {
    if |s| > 0 {
      SumZeros(s[1..]);
    }
  }

  /** A worker that finishes returns exactly `max(share, 0)` points, all
      inside the region. */
  lemma WorkerListFacts<R, P>(rows: seq<R>, contains: (R, P) -> bool, streamOf: int -> seq<P>,
                              seed: int, numPoints: int, workers: nat, i: nat)
    requires workers >= 1 && i < workers
    requires WorkerFinishes(rows, contains, streamOf, seed, numPoints, workers, i)
    ensures |WorkerPoints(rows, contains, streamOf, seed, numPoints, workers)[i]| == Max0(Share(numPoints, workers, i))
    ensures forall p :: p in WorkerPoints(rows, contains, streamOf, seed, numPoints, workers)[i] ==>
      Inside(rows, contains, p)
  {
    var acc := Accepted(rows, contains, streamOf(seed + i));
    var list := WorkerPoints(rows, contains, streamOf, seed, numPoints, workers)[i];
    forall p | p in list
      ensures Inside(rows, contains, p)
    {
      var k :| 0 <= k < |list| && list[k] == p;
      assert p == acc[k];
    }
  }

  /** When every worker finishes, the worker lists together hold
      `max(numPoints, 0)` points, all inside the region. */
  lemma WorkerPointsTotal<R, P>(rows: seq<R>, contains: (R, P) -> bool, streamOf: int -> seq<P>,
                                seed: int, numPoints: int, workers: nat)
    requires workers >= 1
    requires WorkersFinish(rows, contains, streamOf, seed, numPoints, workers)
    ensures |Concat(WorkerPoints(rows, contains, streamOf, seed, numPoints, workers))| == Max0(numPoints)
    ensures forall p :: p in Concat(WorkerPoints(rows, contains, streamOf, seed, numPoints, workers)) ==>
      Inside(rows, contains, p)
  {
    var lists := WorkerPoints(rows, contains, streamOf, seed, numPoints, workers);
    var shares := Shares(numPoints, workers);
    forall i | 0 <= i < workers
      ensures |lists[i]| == Max0(shares[i])
    {
      WorkerListFacts(rows, contains, streamOf, seed, numPoints, workers, i);
    }
    if numPoints >= 0 {
      ConcatLength(lists, shares);
    } else {
      var zeros := seq(workers, i => 0);
      ConcatLength(lists, zeros);
      SumZeros(zeros);
    }
    forall p | p in Concat(lists)
      ensures Inside(rows, contains, p)
    {
      ConcatMembers(lists, p);
      var i :| 0 <= i < |lists| && p in lists[i];
      WorkerListFacts(rows, contains, streamOf, seed, numPoints, workers, i);
    }
  }

  /** One worker process: it runs the sampling loop on the stream seeded
      with its seed for its share. It finishes exactly when that stream
      holds enough accepted candidates, and then returns that worker's
      list. */
  method StartWorker<R, P>(rows: seq<R>, contains: (R, P) -> bool, streamOf: int -> seq<P>,
                           seed: int, numPoints: int, workers: nat, i: nat)
    returns (pts: seq<P>, done: bool)
    requires workers >= 1 && i < workers
    ensures done <==> WorkerFinishes(rows, contains, streamOf, seed, numPoints, workers, i)
    ensures done ==> pts == WorkerPoints(rows, contains, streamOf, seed, numPoints, workers)[i]
  {
    var shares := Shares(numPoints, workers);
    var seeds := WorkerSeeds(seed, workers);
    var used;
    pts, used, done := SampleWithin(rows, contains, streamOf(seeds[i]), shares[i]);
  }

  /** The process start loop: worker `i` runs the sampling loop on the
      stream seeded with `seed + i` for its share, and the lists the loops
      return are collected by worker. `finished` is false when some worker's
      stream runs out. */
  method RunWorkers<R, P>(rows: seq<R>, contains: (R, P) -> bool, streamOf: int -> seq<P>,
                          seed: int, numPoints: int, workers: nat)
    returns (finished: bool, lists: seq<seq<P>>)
    requires workers >= 1
    ensures finished <==> WorkersFinish(rows, contains, streamOf, seed, numPoints, workers)
    ensures finished ==> lists == WorkerPoints(rows, contains, streamOf, seed, numPoints, workers)
  {
    ghost var all := WorkerPoints(rows, contains, streamOf, seed, numPoints, workers);
    lists := [];
    var i := 0;
    while i < workers
      invariant 0 <= i <= workers
      invariant lists == all[..i]
      invariant forall j :: 0 <= j < i ==> WorkerFinishes(rows, contains, streamOf, seed, numPoints, workers, j)
    {
      var pts, done := StartWorker(rows, contains, streamOf, seed, numPoints, workers, i);
      if !done {
        return false, lists;
      }
      assert all[..i + 1] == all[..i] + [pts];
      lists := lists + [pts];
      i := i + 1;
    }
    assert all[..workers] == all;
    return true, lists;
  }

  /** The `points.extend(result_queue.get())` loop: the lists are
      concatenated in the order they come off the queue. */
  method CollectResults<P>(arrived: seq<seq<P>>) returns (collected: seq<P>)
    ensures collected == Concat(arrived)
    ensures forall p :: p in collected <==> InSomePiece(arrived, p)
  {
    collected := [];
    var j := 0;
    while j < |arrived|
      invariant 0 <= j <= |arrived|
      invariant collected == Concat(arrived[..j])
    {
      ConcatPrefixStep(arrived, j);
      collected := collected + arrived[j];
      j := j + 1;
    }
    assert arrived[..|arrived|] == arrived;
    forall p
      ensures p in collected <==> InSomePiece(arrived, p)
    {
      ConcatMembers(arrived, p);
    }
  }

  /** `generate_random_points_within_shapefile_parallel`: run the workers,
      wait for their progress reports, then concatenate the result lists in
      the order they come off the result queue. `reports` and `arrived` are
      the two queues' contents in arrival order: some arrangement of the
      shares and of the lists the worker loops compute. The result is
      `None` when some worker's stream runs out, where the source waits
      forever. */
  method SampleParallel<R, P>(rows: seq<R>, contains: (R, P) -> bool, streamOf: int -> seq<P>,
                              seed: int, numPoints: int, workers: nat,
                              reports: seq<int>, arrived: seq<seq<P>>)
    returns (points: Option<seq<P>>)
    requires workers >= 1
    requires multiset(reports) == multiset(Shares(numPoints, workers))
    requires multiset(arrived) == multiset(WorkerPoints(rows, contains, streamOf, seed, numPoints, workers))
    ensures points.Some? <==> WorkersFinish(rows, contains, streamOf, seed, numPoints, workers)
    ensures points.Some? ==> points.value == Concat(arrived)
    ensures points.Some? ==> |points.value| == Max0(numPoints)
    ensures points.Some? ==> forall p :: p in points.value ==> Inside(rows, contains, p)
    ensures points.Some? ==>
      multiset(points.value) == multiset(Concat(WorkerPoints(rows, contains, streamOf, seed, numPoints, workers)))
  {
    var finished, lists := RunWorkers(rows, contains, streamOf, seed, numPoints, workers);
    if !finished {
      // Some worker never finishes; the orchestrator would block forever.
      return None;
    }
    // The result queue holds exactly the lists the worker loops returned.
    assert multiset(arrived) == multiset(lists);
    var completed, consumed := AwaitProgress(reports, numPoints, workers);
    var collected := CollectResults(arrived);
    ConcatPermutation(arrived, lists);
    WorkerPointsTotal(rows, contains, streamOf, seed, numPoints, workers);
    assert |collected| == |multiset(collected)|;
    forall p | p in collected
      ensures Inside(rows, contains, p)
    {
      assert p in multiset(Concat(lists));
    }
    points := Some(collected);
  }
}
