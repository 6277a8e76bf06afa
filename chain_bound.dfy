/** Why a bound on `readFile`'s loop loses nothing: the loop only ever holds
    cluster numbers below 0xFF8, the table never changes while it runs, so a
    walk that is still going after 0xFF8 iterations has met some cluster
    twice and repeats itself forever. */
module ChainBound {
  import opened Wrappers
  import opened Fat
  import opened Chain

  /** One iteration of the loop that neither fails nor ends the file. */
  predicate Continues(v: Volume, cluster: nat) {
    && cluster < EndOfChain
    && ClusterOffset(v.boot, cluster) >= 0
    && Lookup(v.layout, v.fat, cluster).Some?
    && Lookup(v.layout, v.fat, cluster).value < StopAt
  }

  /** The cluster the loop moves to (unchanged when it does not move on). */
  function Succ(v: Volume, cluster: nat): nat {
    if Continues(v, cluster) then Lookup(v.layout, v.fat, cluster).value else cluster
  }

  /** The cluster held after `k` moves from `cluster`. */
  function Iter(v: Volume, cluster: nat, k: nat): nat {
    if k == 0 then cluster else Succ(v, Iter(v, cluster, k - 1))
  }

  /** Each of the first `moves` moves from `cluster` moves on. */
  ghost predicate AllContinue(v: Volume, cluster: nat, moves: nat) {
    forall i :: 0 <= i < moves ==> Continues(v, Iter(v, cluster, i))
  }

  lemma {:induction false} IterAdd(v: Volume, cluster: nat, a: nat, b: nat)
    ensures Iter(v, cluster, a + b) == Iter(v, Iter(v, cluster, a), b)
    decreases b
  {
    if b > 0 {
      IterAdd(v, cluster, a, b - 1);
    }
  }

  lemma {:induction false} IterBelowGuard(v: Volume, cluster: nat, k: nat)
    requires cluster < EndOfChain
    ensures Iter(v, cluster, k) < EndOfChain
  {
    if k > 0 {
      IterBelowGuard(v, cluster, k - 1);
    }
  }

  /** A walk that moves on runs out exactly when the walk from the next
      cluster, with one iteration fewer, does. */
  lemma WalkStep(v: Volume, cluster: nat, fuel: nat)
    requires Continues(v, cluster) && fuel > 0
    ensures Walk(v, cluster, fuel) == Err(Cycle) <==> Walk(v, Succ(v, cluster), fuel - 1) == Err(Cycle)
  {
    var payload := ReadCluster(v, cluster).value;
    assert Walk(v, cluster, fuel) == Prepend(payload, Walk(v, Succ(v, cluster), fuel - 1));
  }

  /** If every move of a walk moves on, so does every move of the walk
      from the next cluster. */
  lemma ShiftForward(v: Volume, cluster: nat, fuel: nat)
    requires fuel > 0
    requires AllContinue(v, cluster, fuel)
    ensures AllContinue(v, Succ(v, cluster), fuel - 1)
  {
    forall i | 0 <= i < fuel - 1
      ensures Continues(v, Iter(v, Succ(v, cluster), i))
    {
      IterAdd(v, cluster, 1, i);
      assert Continues(v, Iter(v, cluster, 1 + i));
    }
  }

  /** If the first move of a walk moves on and so does every move of the
      walk from the next cluster, every move of the walk does. */
  lemma ShiftBack(v: Volume, cluster: nat, fuel: nat)
    requires Continues(v, cluster) && fuel > 0
    requires AllContinue(v, Succ(v, cluster), fuel - 1)
    ensures AllContinue(v, cluster, fuel)
  {
    forall i | 0 <= i < fuel
      ensures Continues(v, Iter(v, cluster, i))
    {
      if i > 0 {
        IterAdd(v, cluster, 1, i - 1);
        assert Continues(v, Iter(v, Succ(v, cluster), i - 1));
      }
    }
  }

  /** Every move of a walk moves on exactly when the first does and every
      move of the walk from the next cluster does. */
  lemma AllContinueShift(v: Volume, cluster: nat, fuel: nat)
    requires Continues(v, cluster) && fuel > 0
    ensures AllContinue(v, cluster, fuel) <==> AllContinue(v, Succ(v, cluster), fuel - 1)
  {
    if AllContinue(v, cluster, fuel) {
      ShiftForward(v, cluster, fuel);
    }
    if AllContinue(v, Succ(v, cluster), fuel - 1) {
      ShiftBack(v, cluster, fuel);
    }
  }

  /** A walk runs out of iterations exactly when it starts below the guard
      and every one of its iterations moves on. */
  lemma {:induction false} WalkRunsOut(v: Volume, cluster: nat, fuel: nat)
    ensures Walk(v, cluster, fuel) == Err(Cycle) <==> cluster < EndOfChain && AllContinue(v, cluster, fuel)
    decreases fuel
  {
    if cluster < EndOfChain && fuel > 0 {
      if Continues(v, cluster) {
        WalkStep(v, cluster, fuel);
        WalkRunsOut(v, Succ(v, cluster), fuel - 1);
        AllContinueShift(v, cluster, fuel);
      } else {
        assert !Continues(v, Iter(v, cluster, 0));
      }
    }
  }

  /** Among more values than there are numbers below `n`, two are equal. */
  lemma {:induction false} Pigeonhole(s: seq<nat>, n: nat) returns (i: nat, j: nat)
    requires |s| > n
    requires forall k :: 0 <= k < |s| ==> s[k] < n
    ensures i < j < |s| && s[i] == s[j]
    decreases n
  {
    var last := s[|s| - 1];
    var init := s[..|s| - 1];
    if k :| 0 <= k < |init| && init[k] == last {
      return k, |s| - 1;
    }
    // Close the gap left by `last`: the other values fit below n - 1.
    var squeezed := seq(|init|, k requires 0 <= k < |init| => if init[k] > last then init[k] - 1 else init[k]);
    i, j := Pigeonhole(squeezed, n - 1);
    assert init[i] == init[j];
  }

  /** Once the walk holds the same cluster at moves `i` and `j`, move `k`
      past `j` holds what move `k - (j - i)` held. */
  lemma IterRepeats(v: Volume, cluster: nat, i: nat, j: nat, k: nat)
    requires i < j <= k && Iter(v, cluster, i) == Iter(v, cluster, j)
    ensures Iter(v, cluster, k) == Iter(v, cluster, k - (j - i))
  {
    IterAdd(v, cluster, j, k - j);
    IterAdd(v, cluster, i, k - j);
    assert j + (k - j) == k && i + (k - j) == k - (j - i);
  }

  /** Once the walk holds the same cluster at moves `i` and `j`, it repeats
      the moves between them forever. */
  lemma {:induction false} AlwaysContinues(v: Volume, cluster: nat, i: nat, j: nat, k: nat)
    requires i < j <= MaxSteps && Iter(v, cluster, i) == Iter(v, cluster, j)
    requires AllContinue(v, cluster, MaxSteps)
    ensures Continues(v, Iter(v, cluster, k))
    decreases k
  {
    if k < j {
      assert k < MaxSteps;
    } else {
      IterRepeats(v, cluster, i, j, k);
      AlwaysContinues(v, cluster, i, j, k - (j - i));
    }
  }

  /** A walk that runs out of `MaxSteps` iterations runs out of any number. */
  lemma OutOfStepsIsForever(v: Volume, cluster: nat)
    requires Walk(v, cluster, MaxSteps) == Err(Cycle)
    ensures forall fuel: nat :: Walk(v, cluster, fuel) == Err(Cycle)
  {
    WalkRunsOut(v, cluster, MaxSteps);
    var s := seq(MaxSteps + 1, k requires 0 <= k <= MaxSteps => Iter(v, cluster, k));
    forall k | 0 <= k < |s|
      ensures s[k] < EndOfChain
    {
      IterBelowGuard(v, cluster, k);
    }
    var i, j := Pigeonhole(s, EndOfChain);
    assert Iter(v, cluster, i) == Iter(v, cluster, j);
    forall fuel: nat
      ensures Walk(v, cluster, fuel) == Err(Cycle)
    {
      forall k: nat | k < fuel
        ensures Continues(v, Iter(v, cluster, k))
      {
        AlwaysContinues(v, cluster, i, j, k);
      }
      WalkRunsOut(v, cluster, fuel);
    }
  }

  /** A walk that ends within some number of iterations ends the same way
      with any larger number. */
  lemma {:induction false} WalkFuelMonotone(v: Volume, cluster: nat, fuel: nat, more: nat)
    requires Walk(v, cluster, fuel) != Err(Cycle) && fuel <= more
    ensures Walk(v, cluster, more) == Walk(v, cluster, fuel)
    decreases fuel
  {
    if Continues(v, cluster) && fuel > 0 {
      var next := Lookup(v.layout, v.fat, cluster).value;
      var payload := ReadCluster(v, cluster).value;
      assert Walk(v, cluster, fuel) == Prepend(payload, Walk(v, next, fuel - 1));
      assert Walk(v, cluster, more) == Prepend(payload, Walk(v, next, more - 1));
      WalkFuelMonotone(v, next, fuel - 1, more - 1);
    }
  }

  /** `ReadFile`'s bound loses nothing: it fails with `Cycle` exactly when
      `readFile`'s unbounded loop never stops, and otherwise returns what
      that loop returns after however many iterations it takes. */
  lemma ReadFileExact(v: Volume, cluster: nat)
    ensures Walk(v, cluster, MaxSteps) == Err(Cycle) ==>
      forall fuel: nat :: Walk(v, cluster, fuel) == Err(Cycle)
    ensures forall fuel: nat :: Walk(v, cluster, fuel) != Err(Cycle) ==>
      Walk(v, cluster, MaxSteps) == Walk(v, cluster, fuel)
  {
    if Walk(v, cluster, MaxSteps) == Err(Cycle) {
      OutOfStepsIsForever(v, cluster);
    } else {
      forall fuel: nat | Walk(v, cluster, fuel) != Err(Cycle)
        ensures Walk(v, cluster, MaxSteps) == Walk(v, cluster, fuel)
      {
        if fuel <= MaxSteps {
          WalkFuelMonotone(v, cluster, fuel, MaxSteps);
        } else {
          WalkFuelMonotone(v, cluster, MaxSteps, fuel);
        }
      }
    }
  }
}
