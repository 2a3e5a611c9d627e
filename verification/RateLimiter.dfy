/**
  The bursty token-bucket rate limiter. Permits and intervals are reals, time
  points are nanoseconds; the field the program calls "micros" is in milliseconds.
*/
module RateLimiter {
  import I = Integers

  const NS_PER_MS: int := 1_000_000

  datatype Limiter = Limiter(stored: real, maxPermits: real, interval: real, nextFree: int)

  datatype Event = Acquire(permits: int, now: int) | SetRate(rate: real, now: int)

  function Min(x: real, y: real): real { if y < x then y else x }

  /** Products of reals, named so that proofs can treat them as one quantity. */
  function Times(x: real, y: real): real { x * y }

  /** A duration cast drops the fraction of a millisecond, toward zero. */
  function WholeMs(ns: int): int { if ns >= 0 then ns / 1_000_000 else -(-ns / 1_000_000) }

  function Ms(ns: int): real { ns as real / 1_000_000.0 }

  predicate Sound(l: Limiter)
  {
    l.interval > 0.0 && l.maxPermits > 0.0 && l.interval == 1000.0 / l.maxPermits && l.stored >= 0.0
  }

  predicate Valid(l: Limiter) { Sound(l) && l.stored <= l.maxPermits }

  // ----- the operations -----

  /** Idle time earns permits, one per interval, in whole milliseconds. */
  function Resync(l: Limiter, now: int): Limiter
    requires l.interval > 0.0
  {
    if now > l.nextFree then
      var earned := WholeMs(now - l.nextFree) as real / l.interval;
      l.(stored := Min(l.maxPermits, l.stored + earned), nextFree := now)
    else l
  }

  function ChangeRate(l: Limiter, rate: real, now: int): Limiter
    requires l.interval > 0.0 && rate > 0.0
  {
    var r := Resync(l, now);
    r.(interval := 1000.0 / rate, maxPermits := rate,
       stored := if r.maxPermits == 0.0 then 0.0 else r.stored * rate / r.maxPermits)
  }

  /** The part of a request that stored permits do not cover. */
  function Fresh(l: Limiter, permits: int): real { permits as real - Min(permits as real, l.stored) }

  /** The wait is cut to whole milliseconds. */
  function Wait(l: Limiter, permits: int): int { Times(Fresh(l, permits), l.interval).Floor }

  /** A reservation is granted at the free time it finds; later ones pay for it. */
  function Reserve(l: Limiter, permits: int, now: int): Limiter
    requires l.interval > 0.0
  {
    var r := Resync(l, now);
    r.(nextFree := r.nextFree + Wait(r, permits) * 1_000_000, stored := r.stored - Min(permits as real, r.stored))
  }

  function Grant(l: Limiter, now: int): int
    requires l.interval > 0.0
  {
    Resync(l, now).nextFree
  }

  class SmoothBurstyLimiter {
    var storedPermits: real
    var maxPermits: real
    var stableInterval: real
    var nextFreeTicket: int

    function State(): Limiter
      reads this
    {
      Limiter(storedPermits, maxPermits, stableInterval, nextFreeTicket)
    }

    /** The first rate is set on an empty limiter, which earns nothing. */
    constructor (permitsPerSecond: real, now: int)
      requires permitsPerSecond > 0.0
      ensures State() == Limiter(0.0, permitsPerSecond, 1000.0 / permitsPerSecond, if now > 0 then now else 0)
      ensures Valid(State())
    {
      storedPermits, maxPermits := 0.0, permitsPerSecond;
      stableInterval := 1000.0 / permitsPerSecond;
      nextFreeTicket := if now > 0 then now else 0;
      new;
      assert 1000.0 / permitsPerSecond > 0.0;
    }

    /**
      The free time becomes the later of itself and now. A sound limiter stays sound and
      earns no more than the time that passed; a full store is never exceeded, and a
      store in range never lowered.
    */
    method DoResync(now: int)
      requires stableInterval > 0.0
      modifies this
      ensures State() == old(Resync(State(), now))
      ensures nextFreeTicket == I.Max(old(nextFreeTicket), now)
      ensures maxPermits == old(maxPermits) && stableInterval == old(stableInterval)
      ensures old(Sound(State())) ==>
        && Sound(State()) && (now > old(nextFreeTicket) ==> Valid(State()))
        && Times(stableInterval, storedPermits - old(storedPermits)) <= Ms(nextFreeTicket - old(nextFreeTicket))
      ensures old(Valid(State())) ==> Valid(State()) && storedPermits >= old(storedPermits)
      ensures old(Sound(State())) && now > old(nextFreeTicket) ==>
        || storedPermits == maxPermits
        || Times(stableInterval, storedPermits - old(storedPermits)) > Ms(now - old(nextFreeTicket)) - 1.0
    {
      if Sound(State()) {
        if now > nextFreeTicket { ResyncEarns(State(), now); }
        ResyncIsSound(State(), now);
        Distribute(stableInterval, storedPermits, Resync(State(), now).stored - storedPermits);
      }
      if now > nextFreeTicket {
        var diff := WholeMs(now - nextFreeTicket);
        var newPermits := diff as real / stableInterval;
        storedPermits := Min(maxPermits, storedPermits + newPermits);
        nextFreeTicket := now;
      }
    }

    /** A new rate scales what is stored by the same factor as the capacity. */
    method DoSetRate(permitsPerSecond: real, now: int)
      requires Sound(State()) && permitsPerSecond > 0.0
      modifies this
      ensures State() == old(ChangeRate(State(), permitsPerSecond, now))
      ensures Sound(State()) && nextFreeTicket >= old(nextFreeTicket)
      ensures old(Valid(State())) ==> Valid(State())
    {
      hide Resync, Min, WholeMs, Times, Ms;
      ChangeRateKeepsFraction(State(), permitsPerSecond, now);
      DoResync(now);
      stableInterval := 1000.0 / permitsPerSecond;
      var oldMax := maxPermits;
      maxPermits := 1.0 * permitsPerSecond;
      storedPermits := if oldMax == 0.0 then 0.0 else storedPermits * maxPermits / oldMax;
    }

    /**
      Reserves permits and returns how long to sleep, in milliseconds: the sleep
      ends less than a millisecond before the granted moment, never after it.
    */
    method DoAcquire(permits: int, now: int) returns (waitMs: int)
      requires Sound(State())
      modifies this
      ensures State() == old(Reserve(State(), permits, now))
      ensures Sound(State()) && nextFreeTicket >= old(nextFreeTicket)
      ensures old(Valid(State())) && permits >= 0 ==> Valid(State())
      ensures
        var grant := old(Grant(State(), now));
        0 <= waitMs && waitMs * NS_PER_MS <= grant - now < (waitMs + 1) * NS_PER_MS
    {
      ReserveIsSound(State(), permits, now);
      DoResync(now);
      var moment := nextFreeTicket;
      var spend := Min(permits as real, storedPermits);
      var uncovered := permits as real - spend;
      var wait := Times(uncovered, stableInterval).Floor;
      nextFreeTicket := nextFreeTicket + wait * 1_000_000;
      storedPermits := storedPermits - spend;
      var diff := WholeMs(moment - now);
      waitMs := if diff < 0 then 0 else diff;
    }
  }

  // ----- what every operation keeps -----

  /** Idle time never lowers the store of a valid limiter, and never adds more than it was long. */
  lemma ResyncIsSound(l: Limiter, now: int)
    requires Sound(l)
    ensures Sound(Resync(l, now))
    ensures Resync(l, now).nextFree == if now > l.nextFree then now else l.nextFree
    ensures Valid(l) || now > l.nextFree ==> Valid(Resync(l, now))
    ensures Valid(l) ==> Resync(l, now).stored >= l.stored
    ensures
      var r := Resync(l, now);
      Times(l.interval, r.stored) <= Times(l.interval, l.stored) + Ms(r.nextFree - l.nextFree)
  {
    var ms := WholeMs(now - l.nextFree) as real;
    var earned := ms / l.interval;
    assert now > l.nextFree ==> 0.0 <= ms <= Ms(now - l.nextFree);
    assert l.interval * earned == ms;
    Sign(earned, l.interval);
    var r := Resync(l, now);
    assert now > l.nextFree ==> r.stored <= l.stored + earned;
    MonotoneProduct(l.interval, r.stored, l.stored + earned);
    assert l.interval * (l.stored + earned) == l.interval * l.stored + l.interval * earned;
  }

  /** Idle time is paid in full but for a part of a millisecond, until the store is full. */
  lemma ResyncEarns(l: Limiter, now: int)
    requires Sound(l) && now > l.nextFree
    ensures
      var r := Resync(l, now);
      || r.stored == l.maxPermits
      || Times(l.interval, r.stored - l.stored) > Ms(now - l.nextFree) - 1.0
  {
    var ms := WholeMs(now - l.nextFree) as real;
    var earned := ms / l.interval;
    assert ms > Ms(now - l.nextFree) - 1.0;
    assert l.interval * earned == ms;
    assert Resync(l, now).stored != l.maxPermits ==> Resync(l, now).stored - l.stored == earned;
  }

  /** A second without requests fills the store from any level. */
  lemma FullAfterOneSecond(l: Limiter, now: int)
    requires Sound(l) && now - l.nextFree >= 1000 * NS_PER_MS
    ensures Resync(l, now) == l.(stored := l.maxPermits, nextFree := now)
  {
    var ms := WholeMs(now - l.nextFree) as real;
    var earned := ms / l.interval;
    assert ms >= 1000.0;
    assert l.interval * l.maxPermits == 1000.0;
    assert l.interval * earned == ms;
    Sign(earned - l.maxPermits, l.interval);
    assert (earned - l.maxPermits) * l.interval == l.interval * earned - l.interval * l.maxPermits;
  }

  /** What is stored is spent first, permit for permit and for no time; only the rest is
      waited for, and then nothing stays stored. */
  lemma ReserveSpends(l: Limiter, permits: int, now: int)
    requires Sound(l)
    ensures
      var r, s := Resync(l, now), Reserve(l, permits, now);
      if permits as real <= r.stored then s == r.(stored := r.stored - permits as real)
      else
        && s.stored == 0.0 && s.maxPermits == l.maxPermits && s.interval == l.interval
        && s.nextFree == r.nextFree + Times(permits as real - r.stored, l.interval).Floor * NS_PER_MS
  {
    NoTime(l.interval);
  }

  lemma NoTime(i: real)
    ensures Times(0.0, i).Floor == 0
  {
  }

  lemma Sign(q: real, i: real)
    requires i > 0.0
    ensures q * i >= 0.0 <==> q >= 0.0
  {
    if q >= 0.0 { assert q * i >= 0.0; } else { assert (-q) * i > 0.0; }
  }

  lemma MonotoneProduct(i: real, x: real, y: real)
    requires i > 0.0
    ensures x <= y <==> Times(i, x) <= Times(i, y)
  {
    Sign(y - x, i);
    assert (y - x) * i == i * y - i * x;
  }

  lemma WaitBounds(l: Limiter, permits: int)
    requires l.interval > 0.0
    ensures Fresh(l, permits) >= 0.0 && Wait(l, permits) >= 0
    ensures Wait(l, permits) as real <= Times(Fresh(l, permits), l.interval) < Wait(l, permits) as real + 1.0
  {
    Sign(Fresh(l, permits), l.interval);
  }

  /** The free time only moves forward, and no grant precedes its request. */
  lemma ReserveIsSound(l: Limiter, permits: int, now: int)
    requires Sound(l)
    ensures Sound(Reserve(l, permits, now))
    ensures Reserve(l, permits, now).nextFree >= Grant(l, now) >= l.nextFree && Grant(l, now) >= now
    ensures Valid(l) && permits >= 0 ==> Valid(Reserve(l, permits, now))
  {
    hide Times, Ms;
    ResyncIsSound(l, now);
    WaitBounds(Resync(l, now), permits);
  }

  /**
    A negative request puts permits back. From a valid limiter the store stays
    within its capacity exactly when the request returns no more than the room left.
  */
  lemma OverfullIff(l: Limiter, permits: int, now: int)
    requires Valid(l)
    ensures
      var r := Resync(l, now);
      Valid(Reserve(l, permits, now)) <==> permits as real >= r.stored - r.maxPermits
  {
    hide Times, Ms;
    ResyncIsSound(l, now);
    ReserveIsSound(l, permits, now);
  }

  lemma NegativePermitsOverfill()
    ensures
      var l := Limiter(0.0, 1.0, 1000.0, 0);
      Valid(l) && Reserve(l, -5, 0).stored == 5.0 && !Valid(Reserve(l, -5, 0))
  {
  }

  /** A rate change keeps the filling reached after the resync. */
  lemma ChangeRateKeepsFraction(l: Limiter, rate: real, now: int)
    requires Sound(l) && rate > 0.0
    ensures Sound(ChangeRate(l, rate, now))
    ensures Valid(l) ==> Valid(ChangeRate(l, rate, now))
    ensures
      var r, c := Resync(l, now), ChangeRate(l, rate, now);
      && c.stored * r.maxPermits == r.stored * c.maxPermits
      && c.maxPermits == rate && c.interval * rate == 1000.0
      && c.nextFree == r.nextFree >= l.nextFree
      && (Valid(r) <==> Valid(c))
  {
    ResyncIsSound(l, now);
    var r := Resync(l, now);
    Rescale(r.stored, r.maxPermits, rate);
    assert 1000.0 / rate > 0.0;
    assert 1000.0 / rate * rate == 1000.0;
  }

  lemma Rescale(s: real, m: real, rate: real)
    requires 0.0 <= s && m > 0.0 && rate > 0.0
    ensures 0.0 <= s * rate / m && s * rate / m * m == s * rate
    ensures s * rate / m <= rate <==> s <= m
  {
    var q := s * rate / m;
    assert q * m == s * rate;
    Sign(s, rate);
    Sign(q, m);
    Sign(m - s, rate);
    Sign(rate - q, m);
    assert (m - s) * rate == m * rate - s * rate;
    assert (rate - q) * m == rate * m - q * m;
  }

  // ----- whole runs -----

  predicate PositiveRates(es: seq<Event>) { forall e <- es :: e.SetRate? ==> e.rate > 0.0 }

  predicate NonNegative(es: seq<Event>) { forall e <- es :: e.Acquire? ==> e.permits >= 0 }

  predicate OnlyAcquires(es: seq<Event>) { forall e <- es :: e.Acquire? }

  function Apply(l: Limiter, e: Event): Limiter
    requires Sound(l) && (e.SetRate? ==> e.rate > 0.0)
  {
    if e.Acquire? then Reserve(l, e.permits, e.now) else ChangeRate(l, e.rate, e.now)
  }

  lemma ApplyIsSound(l: Limiter, e: Event)
    requires Sound(l) && (e.SetRate? ==> e.rate > 0.0)
    ensures Sound(Apply(l, e)) && Apply(l, e).nextFree >= Grant(l, e.now)
    ensures Grant(l, e.now) >= l.nextFree && Grant(l, e.now) >= e.now
    ensures Valid(l) && (e.Acquire? ==> e.permits >= 0) ==> Valid(Apply(l, e))
    ensures e.Acquire? ==> Apply(l, e).interval == l.interval
  {
    hide Times, Ms, Min, Wait, Fresh;
    match e {
      case Acquire(permits, now) => ReserveIsSound(l, permits, now);
      case SetRate(rate, now) => ChangeRateKeepsFraction(l, rate, now); ResyncIsSound(l, now);
    }
  }

  /** The limiter after every event of a run. */
  ghost function Run(l: Limiter, es: seq<Event>): (r: Limiter)
    requires Sound(l) && PositiveRates(es)
    ensures Sound(r)
    decreases |es|
  {
    if es == [] then l else ApplyIsSound(l, es[0]); Run(Apply(l, es[0]), es[1..])
  }

  /** The moment each event of a run is served: for a reservation, when it is granted. */
  ghost function Moments(l: Limiter, es: seq<Event>): (ts: seq<int>)
    requires Sound(l) && PositiveRates(es)
    ensures |ts| == |es|
    decreases |es|
  {
    if es == [] then [] else ApplyIsSound(l, es[0]); [Grant(l, es[0].now)] + Moments(Apply(l, es[0]), es[1..])
  }

  /**
    Over every run, whatever the clock readings: grants never decrease and none
    precedes its own request; with no negative request the store stays in range.
  */
  lemma {:induction false} GrantsNeverDecrease(l: Limiter, es: seq<Event>)
    requires Sound(l) && PositiveRates(es)
    ensures
      var ts := Moments(l, es);
      && (forall i :: 0 <= i < |es| ==> ts[i] >= es[i].now && l.nextFree <= ts[i] <= Run(l, es).nextFree)
      && (forall i, j :: 0 <= i < j < |es| ==> ts[i] <= ts[j])
    ensures Run(l, es).nextFree >= l.nextFree
    ensures Valid(l) && NonNegative(es) ==> Valid(Run(l, es))
    decreases |es|
  {
    hide Apply, Resync, Grant, Sound, Valid;
    if es != [] {
      ApplyIsSound(l, es[0]);
      GrantsNeverDecrease(Apply(l, es[0]), es[1..]);
    }
  }

  /** Requests at one instant. */
  predicate AllAt(es: seq<Event>, now: int) { forall e <- es :: e.Acquire? && e.permits >= 0 && e.now == now }

  /** At one instant everything stored can be had without moving the free time. */
  lemma {:induction false} StoredIsFree(l: Limiter, es: seq<Event>, now: int)
    requires Sound(l) && l.nextFree == now && PositiveRates(es) && AllAt(es, now) && Total(es) as real <= l.stored
    ensures Run(l, es) == l.(stored := l.stored - Total(es) as real)
    ensures forall i :: 0 <= i < |es| ==> Moments(l, es)[i] == now
    decreases |es|
  {
    if es != [] {
      TotalNonNegative(es[1..], now);
      ReserveSpends(l, es[0].permits, now);
      ApplyIsSound(l, es[0]);
      StoredIsFree(Apply(l, es[0]), es[1..], now);
    }
  }

  lemma {:induction false} TotalNonNegative(es: seq<Event>, now: int)
    requires AllAt(es, now)
    ensures Total(es) >= 0
  {
    if es != [] { TotalNonNegative(es[1..], now); }
  }

  /**
    After an idle second a whole second's permits are granted at once, in any split, and
    the next request is still served at that instant.
  */
  lemma BurstAfterIdleSecond(l: Limiter, es: seq<Event>, now: int)
    requires Sound(l) && now - l.nextFree >= 1000 * NS_PER_MS
    requires es != [] && PositiveRates(es) && AllAt(es, now) && Total(es) as real <= l.maxPermits
    ensures Run(l, es) == l.(stored := l.maxPermits - Total(es) as real, nextFree := now)
    ensures forall i :: 0 <= i < |es| ==> Moments(l, es)[i] == now
  {
    hide Times, Ms, Wait, Min;
    FullAfterOneSecond(l, now);
    ResyncIsSound(l, now);
    var r := Resync(l, now);
    assert Resync(r, now) == r;
    assert Apply(l, es[0]) == Apply(r, es[0]);
    StoredIsFree(r, es, now);
    assert Run(l, es) == Run(r, es) && Moments(l, es) == Moments(r, es);
  }

  function Total(es: seq<Event>): int
  {
    if es == [] then 0 else (if es[0].Acquire? then es[0].permits else 0) + Total(es[1..])
  }

  /** One reservation: what it takes is paid by the store, by time, and by less than one lost millisecond. */
  lemma ReserveIsPaid(l: Limiter, permits: int, now: int)
    requires Sound(l)
    ensures
      var s := Reserve(l, permits, now);
      Times(l.interval, permits as real) + Times(l.interval, s.stored)
        < Times(l.interval, l.stored) + Ms(s.nextFree - l.nextFree) + 1.0
  {
    ResyncIsSound(l, now);
    var r, s := Resync(l, now), Reserve(l, permits, now);
    WaitBounds(r, permits);
    assert permits as real + s.stored == Fresh(r, permits) + r.stored;
    Distribute(l.interval, permits as real, s.stored);
    Distribute(l.interval, Fresh(r, permits), r.stored);
    assert Times(Fresh(r, permits), l.interval) == Times(l.interval, Fresh(r, permits));
    assert Ms(s.nextFree - l.nextFree) == Ms(r.nextFree - l.nextFree) + Wait(r, permits) as real;
  }

  lemma Distribute(i: real, x: real, y: real)
    ensures Times(i, x + y) == Times(i, x) + Times(i, y)
  {
  }

  /**
    Admission at a fixed rate: the permits handed out by k reservations, valued at
    one interval each, exceed what was stored plus the time charged by less than k
    milliseconds, one for each truncated wait.
  */
  lemma {:induction false} AdmissionBound(l: Limiter, es: seq<Event>)
    requires Sound(l) && OnlyAcquires(es) && PositiveRates(es)
    ensures
      var s := Run(l, es);
      && s.interval == l.interval
      && Times(l.interval, Total(es) as real) + Times(l.interval, s.stored)
           <= Times(l.interval, l.stored) + Ms(s.nextFree - l.nextFree) + |es| as real
    ensures
      var s := Run(l, es);
      Times(l.interval, Total(es) as real) <= Times(l.interval, l.stored) + Ms(s.nextFree - l.nextFree) + |es| as real
    decreases |es|
  {
    hide Reserve, Resync, Grant;
    if es == [] {
      assert Times(l.interval, Total(es) as real) == 0.0;
    } else {
      var s := Apply(l, es[0]);
      ApplyIsSound(l, es[0]);
      ReserveIsPaid(l, es[0].permits, es[0].now);
      AdmissionBound(s, es[1..]);
      Distribute(l.interval, es[0].permits as real, Total(es[1..]) as real);
      assert Total(es) as real == es[0].permits as real + Total(es[1..]) as real;
      assert Run(l, es) == Run(s, es[1..]);
    }
    Sign(Run(l, es).stored, l.interval);
  }

  /**
    The limiter never over-throttles: with no request later than `latest` and
    none negative, the free time is at most one interval per permit past the later
    of `latest` and where it began.
  */
  lemma {:induction false} DelayBound(l: Limiter, es: seq<Event>, latest: int)
    requires Sound(l) && OnlyAcquires(es) && PositiveRates(es) && NonNegative(es)
    requires forall e <- es :: e.now <= latest
    ensures Ms(Run(l, es).nextFree - I.Max(l.nextFree, latest)) <= Times(l.interval, Total(es) as real)
    decreases |es|
  {
    hide Resync, Grant, Min;
    if es == [] {
      assert Times(l.interval, Total(es) as real) == 0.0;
    } else {
      var e := es[0];
      var s := Apply(l, e);
      ApplyIsSound(l, e);
      ReserveIsPunctual(l, e.permits, e.now);
      DelayBound(s, es[1..], latest);
      Distribute(l.interval, e.permits as real, Total(es[1..]) as real);
      assert Total(es) as real == e.permits as real + Total(es[1..]) as real;
      assert Run(l, es) == Run(s, es[1..]);
    }
  }

  lemma ReserveIsPunctual(l: Limiter, permits: int, now: int)
    requires Sound(l) && permits >= 0
    ensures Ms(Reserve(l, permits, now).nextFree - I.Max(l.nextFree, now)) <= Times(l.interval, permits as real)
  {
    ResyncIsSound(l, now);
    var r := Resync(l, now);
    WaitBounds(r, permits);
    MonotoneProduct(l.interval, Fresh(r, permits), permits as real);
    assert Times(Fresh(r, permits), l.interval) == Times(l.interval, Fresh(r, permits));
    assert Ms(Wait(r, permits) * 1_000_000) == Wait(r, permits) as real;
  }

  // ----- the allowance for truncated waits cannot be smaller -----

  /** A request delays later ones exactly when the part of it that is not stored costs a whole millisecond. */
  lemma DelaysIff(l: Limiter, permits: int, now: int)
    requires Sound(l)
    ensures Reserve(l, permits, now).nextFree > Grant(l, now) <==>
            Times(Fresh(Resync(l, now), permits), l.interval) >= 1.0
  {
    hide Times, Fresh, Min;
    ResyncIsSound(l, now);
    WaitBounds(Resync(l, now), permits);
  }

  /** Above a thousand permits a second a single permit delays nobody, whatever is stored. */
  lemma SinglePermitIsFree(l: Limiter, now: int)
    requires Sound(l) && l.interval < 1.0
    ensures Reserve(l, 1, now).nextFree == Grant(l, now) == I.Max(l.nextFree, now)
  {
    hide Times, Wait, Ms;
    var r := Resync(l, now);
    ResyncIsSound(l, now);
    ReserveIsSound(l, 1, now);
    DelaysIff(l, 1, now);
    MonotoneProduct(l.interval, Fresh(r, 1), 1.0);
    Commute(l.interval, Fresh(r, 1));
  }

  lemma Commute(x: real, y: real)
    ensures Times(x, y) == Times(y, x) && Times(x, 1.0) == x
  {
  }

  predicate SinglePermits(es: seq<Event>) { forall e <- es :: e.Acquire? && e.permits == 1 }

  /** The latest of a time and the clock readings of a run. */
  function Latest(t: int, es: seq<Event>): int
    decreases |es|
  {
    if es == [] then t else Latest(I.Max(t, es[0].now), es[1..])
  }

  /**
    So at such a rate no run of single permits ever waits for another: each is granted at
    the latest clock reading so far, or at the free time the run began with.
  */
  lemma {:induction false} FastRateNeverWaits(l: Limiter, es: seq<Event>)
    requires Sound(l) && l.interval < 1.0 && SinglePermits(es) && PositiveRates(es)
    ensures forall i :: 0 <= i < |es| ==> Moments(l, es)[i] == Latest(l.nextFree, es[..i + 1])
    decreases |es|
  {
    hide Reserve, Resync, Grant, Sound;
    if es != [] {
      var s := Apply(l, es[0]);
      ApplyIsSound(l, es[0]);
      SinglePermitIsFree(l, es[0].now);
      FastRateNeverWaits(s, es[1..]);
      forall i | 0 <= i < |es|
        ensures Moments(l, es)[i] == Latest(l.nextFree, es[..i + 1])
      {
        assert es[..i + 1][1..] == es[1..][..i];
        if i > 0 { assert Moments(l, es)[i] == Moments(s, es[1..])[i - 1]; }
      }
    }
  }

  /** With a clock that does not go back the latest reading is a request's own. */
  lemma {:induction false} LatestIsOwn(t: int, es: seq<Event>)
    requires |es| > 0 && forall i, j :: 0 <= i < j < |es| ==> es[i].now <= es[j].now
    ensures Latest(t, es) == I.Max(t, es[|es| - 1].now)
    decreases |es|
  {
    if |es| > 1 { LatestIsOwn(I.Max(t, es[0].now), es[1..]); }
  }

  ghost function Burst(k: nat): (es: seq<Event>)
    ensures |es| == k && OnlyAcquires(es) && PositiveRates(es)
  {
    seq(k, i => Acquire(1, 0))
  }

  /** On an empty store any number of single permits at one instant leaves the limiter as it was. */
  lemma {:induction false} BurstChangesNothing(l: Limiter, k: nat)
    requires Sound(l) && l.stored == 0.0 && l.nextFree >= 0 && l.interval < 1.0
    ensures Run(l, Burst(k)) == l && Total(Burst(k)) == k
  {
    if k > 0 {
      SinglePermitIsFree(l, 0);
      ReserveIsSound(l, 1, 0);
      assert Reserve(l, 1, 0) == l;
      assert Burst(k)[1..] == Burst(k - 1);
      BurstChangesNothing(l, k - 1);
    }
  }

  /** No allowance below one millisecond a reservation would make the admission bound hold. */
  lemma AllowanceIsExact(c: real, k: nat) returns (l: Limiter, es: seq<Event>)
    requires 0.0 <= c < 1.0 && k > 0
    ensures Valid(l) && OnlyAcquires(es) && PositiveRates(es) && |es| == k
    ensures
      Times(l.interval, Total(es) as real)
        > Times(l.interval, l.stored) + Ms(Run(l, es).nextFree - l.nextFree) + Times(c, k as real)
  {
    hide Times, Run, Total, Moments, Burst;
    var i := (1.0 + c) / 2.0;
    l := Limiter(0.0, 1000.0 / i, i, 0);
    assert 1000.0 / i > 0.0;
    assert l.interval == 1000.0 / l.maxPermits;
    es := Burst(k);
    BurstChangesNothing(l, k);
    StrictProduct(c, i, k as real);
    assert Ms(Run(l, es).nextFree - l.nextFree) == 0.0;
  }

  lemma StrictProduct(c: real, i: real, n: real)
    requires c < i && n > 0.0
    ensures Times(c, n) < Times(i, n) && Times(i, 0.0) == 0.0
  {
    assert (i - c) * n > 0.0;
    assert (i - c) * n == i * n - c * n;
  }
}
