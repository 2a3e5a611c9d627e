/**
  Choosing a pool for a request: the plain round robin picker with its 32-bit
  counter, and the retry loop that skips pools that are not alive.
*/
module SendRequest {
  import opened Integers
  import WRR = WeightedRoundRobin

  /** Whether pool `p` is alive when the `t`-th pick of a call is checked. */
  type Liveness = (nat, nat) -> bool

  ghost predicate AlwaysAlive(alive: Liveness, p: nat) { forall t: nat :: alive(t, p) }

  ghost predicate SomeAlive(alive: Liveness, pools: nat) { exists p: nat :: p < pools && AlwaysAlive(alive, p) }

  /** The pool of the `t`-th pick when the counter stands at `index`. */
  function PoolAt(index: nat, t: nat, pools: nat): nat
    requires pools > 0
  {
    (index + t) % 0x1_0000_0000 % pools
  }

  /** Among `pools` consecutive numbers there is one of every remainder. */
  lemma EveryRemainder(x: nat, pools: nat, p: nat) returns (t: nat)
    requires p < pools
    ensures t < pools && (x + t) % pools == p
  {
    var q, r := x / pools, x % pools;
    if r <= p {
      t := p - r;
      Remainder(x + t, pools, q, p);
    } else {
      t := p + pools - r;
      assert pools * (q + 1) == pools * q + pools;
      Remainder(x + t, pools, q + 1, p);
    }
  }

  /** Even when the counter wraps in the middle, 2n - 1 picks visit every pool. */
  lemma EveryPoolVisited(index: nat, pools: nat, p: nat) returns (t: nat)
    requires index < TWO_32 && p < pools <= TWO_32
    ensures t <= 2 * pools - 2 && PoolAt(index, t, pools) == p
    ensures index + pools <= TWO_32 ==> t < pools
  {
    t := EveryRemainder(index, pools, p);
    if index + t < TWO_32 {
      Remainder(index + t, 0x1_0000_0000, 0, index + t);
    } else {
      t := TWO_32 - index + p;
      if p < TWO_32 {
        Remainder(index + t, 0x1_0000_0000, 1, p);
        Remainder(p, pools, 0, p);
      }
    }
  }

  /** The first `k` picks found no pool alive. */
  ghost predicate AllDead(index: nat, pools: nat, alive: Liveness, k: nat)
    requires pools > 0
  {
    forall t: nat :: t < k ==> !alive(t, PoolAt(index, t, pools))
  }

  /** One of the next 2n + 1 picks is alive when it is checked. */
  ghost predicate SomePickAlive(index: nat, pools: nat, alive: Liveness)
    requires pools > 0
  {
    exists t: nat :: t <= 2 * pools && alive(t, PoolAt(index, t, pools))
  }

  lemma DeadRunIsShort(index: nat, pools: nat, alive: Liveness, k: nat)
    requires index < TWO_32 && 0 < pools <= TWO_32 && AllDead(index, pools, alive, k) && SomeAlive(alive, pools)
    ensures k <= 2 * pools - 2
    ensures index + pools <= TWO_32 ==> k < pools
  {
    hide PoolAt;
    var p: nat :| p < pools && AlwaysAlive(alive, p);
    var t := EveryPoolVisited(index, pools, p);
    assert alive(t, p);
  }

  class RoundRobin {
    var index: nat

    ghost predicate Valid() reads this { index < TWO_32 }

    constructor ()
      ensures Valid() && index == 0
    {
      index := 0;
    }

    /** Takes a pool and moves on: the next call takes the pool after it, unless the
        counter has just wrapped, when it starts again at the first pool. */
    method Pick(pools: nat) returns (pool: nat)
      requires Valid() && pools > 0
      modifies this
      ensures Valid() && index == (old(index) + 1) % 0x1_0000_0000 && pool == PoolAt(old(index), 0, pools) < pools
      ensures PoolAt(index, 0, pools) == if index == 0 || pool + 1 == pools then 0 else pool + 1
    {
      pool := index % pools;
      Remainder(index, 0x1_0000_0000, 0, index);
      InTurn(index, pools);
      index := (index + 1) % 0x1_0000_0000;
    }

    /** The retry loop: at most 2n + 1 picks; if some pool is alive throughout, the
        loop ends on a pool that was alive when it was checked. */
    method ChoosePool(pools: nat, alive: Liveness) returns (pool: nat, ghost picks: nat)
      requires Valid() && 0 < pools < TWO_32
      modifies this
      ensures Valid() && pool < pools
      ensures pools == 1 ==> pool == 0 && index == old(index)
      ensures pools > 1 ==> 1 <= picks <= 2 * pools + 1 && pool == PoolAt(old(index), picks - 1, pools)
      ensures pools > 1 ==> AllDead(old(index), pools, alive, picks - 1)
      ensures pools > 1 ==> (alive(picks - 1, pool) <==> SomePickAlive(old(index), pools, alive))
      ensures pools > 1 && SomeAlive(alive, pools) ==>
        alive(picks - 1, pool) && picks <= 2 * pools - 1 && (old(index) + pools <= TWO_32 ==> picks <= pools)
    {
      hide PoolAt, SomeAlive;
      picks := 0;
      if pools == 1 {
        pool := 0;
        return;
      }
      var cnt := 0;
      pool := Pick(pools);
      picks := 1;
      PoolRange(old(index), 0, pools);
      var dead := !alive(0, pool);
      while dead && cnt + 1 <= pools * 2
        invariant Valid() && 0 <= cnt <= 2 * pools && picks == cnt + 1
        invariant index == (old(index) + picks) % 0x1_0000_0000
        invariant pool == PoolAt(old(index), cnt, pools) < pools
        invariant AllDead(old(index), pools, alive, cnt)
        invariant dead <==> !alive(cnt, pool)
        decreases 2 * pools - cnt
      {
        WrapStep(old(index), picks, pools);
        PoolRange(old(index), picks, pools);
        cnt := cnt + 1;
        pool := Pick(pools);
        picks := picks + 1;
        dead := !alive(cnt, pool);
      }
      if SomeAlive(alive, pools) {
        DeadRunIsShort(old(index), pools, alive, if dead then picks else cnt);
      }
    }
  }

  /** Consecutive counter values take consecutive pools. */
  lemma InTurn(k: nat, pools: nat)
    requires pools > 0 && k < TWO_32
    ensures PoolAt((k + 1) % 0x1_0000_0000, 0, pools) ==
            if k + 1 == TWO_32 || k % pools + 1 == pools then 0 else k % pools + 1
  {
    var q, r := k / pools, k % pools;
    if k + 1 == TWO_32 {
      Remainder(k + 1, 0x1_0000_0000, 1, 0);
      Remainder(0, pools, 0, 0);
    } else {
      Remainder(k + 1, 0x1_0000_0000, 0, k + 1);
      if r + 1 == pools {
        assert pools * (q + 1) == pools * q + pools;
        Remainder(k + 1, pools, q + 1, 0);
      } else {
        Remainder(k + 1, pools, q, r + 1);
      }
    }
  }

  lemma PoolRange(index: nat, t: nat, pools: nat)
    requires pools > 0
    ensures PoolAt(index, t, pools) < pools
  {
  }

  lemma WrapStep(index: nat, picks: nat, pools: nat)
    requires pools > 0
    ensures
      var i := (index + picks) % 0x1_0000_0000;
      && PoolAt(i, 0, pools) == PoolAt(index, picks, pools)
      && (i + 1) % 0x1_0000_0000 == (index + picks + 1) % 0x1_0000_0000
  {
    var i := (index + picks) % 0x1_0000_0000;
    Remainder(i, 0x1_0000_0000, 0, i);
  }

  /** A pool of the largest weight that stays alive; when that weight is zero, the first
      pool counts as one. With equal weights that are not positive it is any pool. */
  ghost predicate LiveHeaviest(w: seq<int>, m: int, alive: Liveness, h: int)
    requires |w| > 0
  {
    0 <= h < |w| && WRR.Effective(w, m)[h] == m && AlwaysAlive(alive, h)
  }

  /** The pick the weights prescribe after k earlier ones. */
  ghost function ScheduledPick(w: seq<int>, m: int, g: int, k: nat): int
    requires |w| > 0 && (m > 0 ==> g > 0)
  {
    var p := WRR.Cycle(w, m, g);
    if |p| == 0 then 0 else p[k % |p|]
  }

  ghost predicate AliveAt(alive: Liveness, t: nat, p: int) { p >= 0 && alive(t, p) }

  /** The t-th pick of a call that found `start` earlier picks. */
  ghost predicate PickAlive(alive: Liveness, picks: seq<int>, start: nat, t: nat)
    requires start + t < |picks|
  {
    AliveAt(alive, t, picks[start + t])
  }

  ghost predicate ScheduledAlive(alive: Liveness, w: seq<int>, m: int, g: int, start: nat, t: nat)
    requires |w| > 0 && (m > 0 ==> g > 0)
  {
    AliveAt(alive, t, ScheduledPick(w, m, g, start + t))
  }

  /** One of the next 2n + 1 scheduled picks is alive when it is checked. */
  ghost predicate AliveInReach(w: seq<int>, m: int, g: int, start: nat, alive: Liveness)
    requires |w| > 0 && (m > 0 ==> g > 0)
  {
    exists t: nat :: t <= 2 * |w| && ScheduledAlive(alive, w, m, g, start, t)
  }

  lemma PicksAreScheduled(b: WRR.Balancer)
    requires b.Valid()
    ensures forall k: nat :: k < |b.picks| ==>
      b.picks[k] == ScheduledPick(b.weights, b.maxWeight, b.maxGcd, k)
  {
    hide WRR.Follows, WRR.Cycle;
    forall k: nat | k < |b.picks|
      ensures b.picks[k] == ScheduledPick(b.weights, b.maxWeight, b.maxGcd, k)
    {
      WRR.PicksCycle(b.weights, b.maxWeight, b.maxGcd, b.current, b.weightCurrent, b.periods, b.picks, k);
    }
  }

  ghost predicate SomeLiveHeaviest(w: seq<int>, m: int, alive: Liveness)
    requires |w| > 0
  {
    exists h :: LiveHeaviest(w, m, alive, h)
  }

  predicate Unweighted(w: seq<int>) { forall k :: 0 <= k < |w| ==> w[k] == 0 }

  /** The choice over weighted picks, for any weights. The loop ends on a live pool
      exactly when one of the next 2n + 1 scheduled picks is alive; a pool of the
      largest weight that stays alive is found within n picks, and without weights
      any pool that does. */
  method ChoosePoolWeighted(b: WRR.Balancer, alive: Liveness) returns (pool: nat, ghost picks: nat)
    requires b.Valid()
    modifies b
    ensures b.Valid() && pool < |b.weights|
    ensures |b.weights| == 1 ==> pool == 0 && b.picks == old(b.picks)
    ensures |b.weights| > 1 ==>
      && 1 <= picks <= 2 * |b.weights| + 1
      && |b.picks| == |old(b.picks)| + picks && b.picks[|b.picks| - 1] == pool
      && (alive(picks - 1, pool) <==> AliveInReach(b.weights, b.maxWeight, b.maxGcd, |old(b.picks)|, alive))
    ensures |b.weights| > 1 && SomeLiveHeaviest(b.weights, b.maxWeight, alive) ==>
      alive(picks - 1, pool) && picks <= |b.weights|
    ensures |b.weights| > 1 && Unweighted(b.weights) && SomeAlive(alive, |b.weights|) ==>
      alive(picks - 1, pool) && picks <= |b.weights|
  {
    hide SomeAlive, SomeLiveHeaviest, AliveInReach, Unweighted, WRR.Follows, WRR.IsGcdOf, WRR.Divides;
    UnweightedPools(b.weights, b.maxWeight, alive);
    if |b.weights| > 1 {
      pool, picks := RetryWeighted(b, alive);
    } else {
      pool, picks := 0, 0;
    }
  }

  method RetryWeighted(b: WRR.Balancer, alive: Liveness) returns (pool: nat, ghost picks: nat)
    requires b.Valid() && |b.weights| > 1
    modifies b
    ensures b.Valid() && pool < |b.weights| && 1 <= picks <= 2 * |b.weights| + 1
    ensures |b.picks| == |old(b.picks)| + picks && b.picks[|b.picks| - 1] == pool
    ensures alive(picks - 1, pool) <==> AliveInReach(b.weights, b.maxWeight, b.maxGcd, |old(b.picks)|, alive)
    ensures SomeLiveHeaviest(b.weights, b.maxWeight, alive) ==> alive(picks - 1, pool) && picks <= |b.weights|
  {
    hide LiveHeaviest, WRR.Follows, WRR.IsGcdOf, WRR.IsMaxOf, WRR.Divides, WRR.Effective, ScheduledPick;
    var n := |b.weights|;
    ghost var before, h := |b.picks|, -1;
    ghost var live := SomeLiveHeaviest(b.weights, b.maxWeight, alive);
    if live { h :| LiveHeaviest(b.weights, b.maxWeight, alive, h); }
    LiveRange(b.weights, b.maxWeight, alive, h);
    pool := PickWeighted(b, h);
    picks := 1;
    var cnt := 0;
    var dead := !alive(0, pool);
    while dead && cnt + 1 <= n * 2
      invariant b.Valid() && 0 <= cnt <= 2 * n && picks == cnt + 1 && 0 <= b.current == pool < n
      invariant |b.picks| == before + picks && b.picks[before + cnt] == pool
      invariant forall t: nat :: t < cnt ==> !PickAlive(alive, b.picks, before, t)
      invariant dead <==> !alive(cnt, pool)
      invariant live && dead ==> WRR.Distance(n, b.current, h) <= n - picks
      invariant live ==> picks <= n
      decreases 2 * n - cnt
    {
      ghost var earlier := b.picks;
      assert !PickAlive(alive, earlier, before, cnt);
      cnt := cnt + 1;
      pool := PickWeighted(b, h);
      assert forall t: nat :: t < cnt ==>
        PickAlive(alive, b.picks, before, t) == PickAlive(alive, earlier, before, t);
      picks := picks + 1;
      dead := !alive(cnt, pool);
    }
    PicksAreScheduled(b);
    assert PickAlive(alive, b.picks, before, cnt) <==> !dead;
    assert forall t: nat :: t <= cnt ==>
      (PickAlive(alive, b.picks, before, t) <==>
       ScheduledAlive(alive, b.weights, b.maxWeight, b.maxGcd, before, t));
  }

  /** Without any weight every pool is as heavy as any other. */
  lemma UnweightedPools(w: seq<int>, m: int, alive: Liveness)
    requires |w| > 0 && WRR.IsMaxOf(w, m)
    ensures Unweighted(w) && SomeAlive(alive, |w|) ==> SomeLiveHeaviest(w, m, alive)
  {
    if Unweighted(w) && SomeAlive(alive, |w|) {
      var p: nat :| p < |w| && AlwaysAlive(alive, p);
      assert LiveHeaviest(w, m, alive, p);
    }
  }

  lemma LiveRange(w: seq<int>, m: int, alive: Liveness, h: int)
    requires |w| > 0
    ensures LiveHeaviest(w, m, alive, h) ==>
      0 <= h < |w| && WRR.Effective(w, m)[h] == m && forall t: nat :: alive(t, h)
  {
  }

  method PickWeighted(b: WRR.Balancer, ghost h: int) returns (pool: nat)
    requires b.Valid()
    modifies b
    ensures b.Valid() && 0 <= b.current == pool < |b.weights| && b.picks == old(b.picks) + [pool]
    ensures 0 <= h < |b.weights| && WRR.Effective(b.weights, b.maxWeight)[h] == b.maxWeight && pool != h ==>
      WRR.Distance(|b.weights|, pool, h) < WRR.Distance(|b.weights|, old(b.current), h)
    ensures -1 <= old(b.current) < |b.weights|
  {
    hide WRR.Follows, WRR.Effective;
    WRR.HostRange(b.weights, b.maxWeight, b.maxGcd, b.current, b.weightCurrent, b.periods, b.picks);
    pool := b.Pick(|b.weights|);
    Remainder(b.current, |b.weights|, 0, b.current);
  }

  predicate OnlyLight(t: nat, p: nat) { p == 1 }

  /** A lighter pool may be missed: with weights 6 and 1, and only the light pool
      alive, a fresh balancer's loop ends on the dead one. */
  lemma LighterPoolMissed()
    ensures WRR.IsGcdOf([6, 1], 1) && WRR.IsMaxOf([6, 1], 6)
    ensures !AliveInReach([6, 1], 6, 1, 0, OnlyLight)
  {
    SixToOne();
    hide WRR.Period;
    forall t: nat | t <= 4
      ensures !ScheduledAlive(OnlyLight, [6, 1], 6, 1, 0, t)
    {
      assert ScheduledPick([6, 1], 6, 1, 0 + t) == 0;
    }
  }

  lemma SixToOne()
    ensures WRR.IsGcdOf([6, 1], 1) && WRR.IsMaxOf([6, 1], 6)
    ensures WRR.Period([6, 1], 6, 1) == [0, 0, 0, 0, 0, 0, 1]
  {
    hide WRR.Sweep, WRR.IsGcdOf;
    var w := [6, 1];
    GcdOfSixAndOne();
    SweepsOfSixAndOne();
    assert w[0] == 6;
    NextLevelDown(w, 5);
    NextLevelDown(w, 4);
    NextLevelDown(w, 3);
    NextLevelDown(w, 2);
    NextLevelDown(w, 1);
    NextLevelDown(w, 0);
    WRR.NothingAbove(w, 6, 1);
    hide WRR.Above;
  }

  lemma NextLevelDown(w: seq<int>, c: int)
    requires c < 6
    ensures WRR.Above(w, 6, 1, c) == WRR.Above(w, 6, 1, c + 1) + WRR.Sweep(w, c + 1, |w|)
  {
  }

  lemma GcdOfSixAndOne()
    ensures WRR.IsGcdOf([6, 1], 1)
  {
    var w := [6, 1];
    assert WRR.Divides(1, 6) by { assert 6 == WRR.Times(1, 6); }
    assert WRR.Divides(1, 1) by { assert 1 == WRR.Times(1, 1); }
    forall d | forall i :: 0 <= i < |w| ==> WRR.Divides(d, w[i])
      ensures WRR.Divides(d, 1)
    {
      assert WRR.Divides(d, w[1]);
    }
  }

  lemma SweepsOfSixAndOne()
    ensures forall c :: 2 <= c <= 6 ==> WRR.Sweep([6, 1], c, 2) == [0]
    ensures WRR.Sweep([6, 1], 1, 2) == [0, 1]
  {
    var w := [6, 1];
    forall c | 2 <= c <= 6
      ensures WRR.Sweep(w, c, 2) == [0]
    {
      assert WRR.Sweep(w, c, 1) == [0];
    }
    assert WRR.Sweep(w, 1, 1) == [0];
  }
}
