/** Least-recently-used caches with an idle timeout, over any key type.

    `Trace` and `Cached` say which keys ought to be held, as a formula over
    everything that happened; `CacheStep` is one step of a cache that only
    knows the time stamps of the keys it holds. */
module Lru {
  import opened Wire

  datatype Access<K> = Touch(key: K, now: nat) | Sweep(now: nat)

  /** Everything that happened so far, last access outermost. */
  datatype Trace<K> = Empty | More(init: Trace<K>, last: Access<K>)

  /** Time of the newest touch, -1 when there is none. */
  function Newest<K>(t: Trace<K>): int {
    match t
    case Empty => -1
    case More(_, Touch(_, now)) => now
    case More(init, Sweep(_)) => Newest(init)
  }

  /** Touches happen at strictly increasing clock readings. */
  predicate Ordered<K>(t: Trace<K>) {
    t.More? ==> Ordered(t.init) && (t.last.Touch? ==> Newest(t.init) < t.last.now)
  }

  predicate Touches<K(==)>(e: Access<K>, k: K) {
    e.Touch? && e.key == k
  }

  predicate Seen<K(==)>(t: Trace<K>, k: K) {
    t.More? && (Touches(t.last, k) || Seen(t.init, k))
  }

  /** When `k` was last touched. */
  function LastTime<K(==)>(t: Trace<K>, k: K): nat
    requires Seen(t, k)
  {
    if Touches(t.last, k) then t.last.now else LastTime(t.init, k)
  }

  /** The keys touched after the last touch of `k`: the part of the
      move-to-front list in front of `k`. */
  function Since<K(==)>(t: Trace<K>, k: K): set<K> {
    if t.Empty? || Touches(t.last, k) then {}
    else Since(t.init, k) + (if t.last.Touch? then {t.last.key} else {})
  }

  /** A stamp too old for a sweep at `now`; the clock difference saturates. */
  predicate Expired(timeout: nat, stamp: nat, now: nat) {
    (if now >= stamp then now - stamp else 0) > timeout
  }

  /** The last touch of `k` was recent enough for every sweep after it. */
  predicate Survives<K(==)>(timeout: nat, t: Trace<K>, k: K)
    requires Seen(t, k)
  {
    !Touches(t.last, k) ==>
      && Survives(timeout, t.init, k)
      && (t.last.Sweep? ==> !Expired(timeout, LastTime(t.init, k), t.last.now))
  }

  /** The reference definition: `k` was touched, its last touch survived every
      later sweep, and fewer than `cap` distinct keys were touched since. */
  predicate Cached<K(==)>(cap: nat, timeout: nat, t: Trace<K>, k: K) {
    Seen(t, k) && Survives(timeout, t, k) && |Since(t, k)| < cap
  }

  predicate IsOldest<K>(m: map<K, nat>, k: K) {
    k in m && forall j :: j in m ==> m[k] <= m[j]
  }

  /** One step of the cache; `victim` names the key that made room, if any. */
  ghost predicate CacheStep<K>(cap: nat, timeout: nat, m: map<K, nat>, e: Access<K>, m': map<K, nat>,
                               victim: Option<K>)
  {
    match e
    case Touch(k, now) =>
      if k in m || |m| < cap then
        victim.None? && m' == m[k := now]
      else
        victim.Some? && IsOldest(m, victim.value) && m' == (m - {victim.value})[k := now]
    case Sweep(now) =>
      victim.None? && m' == map k | k in m && !Expired(timeout, m[k], now) :: m[k]
  }

  lemma {:induction false} LastTimeBound<K>(t: Trace<K>, k: K)
    requires Ordered(t) && Seen(t, k)
    ensures LastTime(t, k) <= Newest(t)
  {
    if !Touches(t.last, k) {
      LastTimeBound(t.init, k);
    }
  }

  lemma {:induction false} SinceIsSeen<K>(t: Trace<K>, k: K, j: K)
    requires j in Since(t, k)
    ensures j != k && Seen(t, j)
  {
    if !Touches(t.last, j) {
      SinceIsSeen(t.init, k, j);
    }
  }

  /** `Since` is the strict order "touched later than". */
  lemma {:induction false} SinceIffLater<K>(t: Trace<K>, k: K, j: K)
    requires Ordered(t) && Seen(t, k) && Seen(t, j) && j != k
    ensures j in Since(t, k) <==> LastTime(t, j) > LastTime(t, k)
    ensures LastTime(t, j) != LastTime(t, k)
  {
    if Touches(t.last, k) {
      LastTimeBound(t.init, j);
    } else if Touches(t.last, j) {
      LastTimeBound(t.init, k);
    } else {
      SinceIffLater(t.init, k, j);
    }
  }

  lemma {:induction false} SinceNested<K>(t: Trace<K>, k: K, j: K)
    requires j in Since(t, k)
    ensures Since(t, j) <= Since(t, k) - {j}
  {
    if !Touches(t.last, j) {
      SinceNested(t.init, k, j);
    }
  }

  lemma {:induction false} LaterSurvives<K>(timeout: nat, t: Trace<K>, k: K, j: K)
    requires Ordered(t) && Seen(t, k) && Survives(timeout, t, k) && j in Since(t, k)
    ensures Seen(t, j) && Survives(timeout, t, j)
  {
    if !Touches(t.last, j) {
      LaterSurvives(timeout, t.init, k, j);
      SinceIsSeen(t.init, k, j);
      SinceIffLater(t.init, k, j);
    }
  }

  lemma {:induction false} SubsetSize<T>(a: set<T>, b: set<T>)
    requires a <= b
    ensures |a| <= |b|
    ensures |a| == |b| ==> a == b
  {
    if a != {} {
      var x :| x in a;
      SubsetSize(a - {x}, b - {x});
    }
  }

  /** Everything in front of a cached key is cached. */
  lemma CachedIsPrefix<K>(cap: nat, timeout: nat, t: Trace<K>, k: K, j: K)
    requires Ordered(t) && Cached(cap, timeout, t, k) && j in Since(t, k)
    ensures Cached(cap, timeout, t, j)
  {
    LaterSurvives(timeout, t, k, j);
    SinceNested(t, k, j);
    SubsetSize(Since(t, j), Since(t, k) - {j});
  }

  /** `m` is right about one key. */
  predicate ExactAt<K(==)>(cap: nat, timeout: nat, t: Trace<K>, m: map<K, nat>, k: K) {
    && (k in m <==> Cached(cap, timeout, t, k))
    && (k in m ==> m[k] == LastTime(t, k))
  }

  /** The cache holds the cached keys, each stamped with its last touch. */
  ghost predicate Exact<K(!new)>(cap: nat, timeout: nat, t: Trace<K>, m: map<K, nat>) {
    |m| <= cap && forall k :: ExactAt(cap, timeout, t, m, k)
  }

  lemma SinceWithin<K(!new)>(cap: nat, timeout: nat, t: Trace<K>, m: map<K, nat>, k: K)
    requires Ordered(t) && Exact(cap, timeout, t, m) && k in m
    ensures Since(t, k) <= m.Keys - {k}
    ensures |Since(t, k)| < |m|
  {
    assert ExactAt(cap, timeout, t, m, k);
    forall j | j in Since(t, k) ensures j in m && j != k {
      assert ExactAt(cap, timeout, t, m, j);
      CachedIsPrefix(cap, timeout, t, k, j);
      SinceIsSeen(t, k, j);
    }
    SubsetSize(Since(t, k), m.Keys - {k});
  }

  /** All other held keys were touched since the last touch of the oldest. */
  lemma SinceOldest<K(!new)>(cap: nat, timeout: nat, t: Trace<K>, m: map<K, nat>, v: K)
    requires Ordered(t) && Exact(cap, timeout, t, m) && IsOldest(m, v)
    ensures Since(t, v) == m.Keys - {v}
  {
    SinceWithin(cap, timeout, t, m, v);
    assert ExactAt(cap, timeout, t, m, v);
    forall j | j in m && j != v ensures j in Since(t, v) {
      assert ExactAt(cap, timeout, t, m, j);
      SinceIffLater(t, v, j);
    }
  }

  /** A touch moves every other key one place back at most. */
  lemma TouchMoves<K>(cap: nat, timeout: nat, t: Trace<K>, e: Access<K>, k: K)
    requires e.Touch? && k != e.key
    ensures Since(More(t, e), k) == Since(t, k) + {e.key}
    ensures Cached(cap, timeout, More(t, e), k) <==>
              Seen(t, k) && Survives(timeout, t, k) && |Since(t, k) + {e.key}| < cap
    ensures Cached(cap, timeout, More(t, e), k) ==> Cached(cap, timeout, t, k)
  {
    SubsetSize(Since(t, k), Since(t, k) + {e.key});
  }

  /** While there is room, or the touched key is held, every held key stays. */
  lemma HitKeeps<K(!new)>(cap: nat, timeout: nat, t: Trace<K>, m: map<K, nat>, a: K, k: K)
    requires Ordered(t) && Exact(cap, timeout, t, m) && k in m && k != a
    requires a in m || |m| < cap
    ensures |Since(t, k) + {a}| < cap
  {
    SinceWithin(cap, timeout, t, m, k);
    if a in m {
      SubsetSize(Since(t, k) + {a}, m.Keys - {k});
    }
  }

  /** When the cache is full, a miss pushes the oldest key out. */
  lemma MissEvictsOldest<K(!new)>(cap: nat, timeout: nat, t: Trace<K>, m: map<K, nat>, a: K, v: K)
    requires Ordered(t) && Exact(cap, timeout, t, m)
    requires a !in m && |m| >= cap && IsOldest(m, v)
    ensures |Since(t, v) + {a}| >= cap
  {
    SinceOldest(cap, timeout, t, m, v);
    var others := m.Keys - {v};
    assert m.Keys == others + {v};
    assert |others + {a}| == |others| + 1;
  }

  /** When the cache is full, a miss keeps every other key. */
  lemma MissKeepsOthers<K(!new)>(cap: nat, timeout: nat, t: Trace<K>, m: map<K, nat>, a: K, v: K, k: K)
    requires Ordered(t) && Exact(cap, timeout, t, m) && k in m && k != v
    requires a !in m && |m| >= cap && IsOldest(m, v)
    ensures |Since(t, k) + {a}| < cap
  {
    SinceWithin(cap, timeout, t, m, k);
    assert v !in Since(t, k) by {
      assert ExactAt(cap, timeout, t, m, k) && ExactAt(cap, timeout, t, m, v);
      SinceIffLater(t, k, v);
    }
    var others := m.Keys - {k};
    assert |m| == |others| + 1 && |others| == |others - {v}| + 1;
    SubsetSize(Since(t, k), others - {v});
  }

  lemma TouchOther<K(!new)>(cap: nat, timeout: nat, t: Trace<K>, m: map<K, nat>, e: Access<K>, m': map<K, nat>,
                            victim: Option<K>, k: K)
    requires Ordered(t) && Exact(cap, timeout, t, m)
    requires e.Touch? && CacheStep(cap, timeout, m, e, m', victim) && k != e.key
    ensures ExactAt(cap, timeout, More(t, e), m', k)
  {
    assert ExactAt(cap, timeout, t, m, k);
    TouchMoves(cap, timeout, t, e, k);
    if k in m {
      if victim.None? {
        HitKeeps(cap, timeout, t, m, e.key, k);
      } else {
        if k == victim.value {
          MissEvictsOldest(cap, timeout, t, m, e.key, k);
        } else {
          MissKeepsOthers(cap, timeout, t, m, e.key, victim.value, k);
        }
      }
    }
  }

  lemma SweepKey<K>(cap: nat, timeout: nat, t: Trace<K>, m: map<K, nat>, e: Access<K>, m': map<K, nat>, k: K)
    requires e.Sweep? && ExactAt(cap, timeout, t, m, k)
    requires CacheStep(cap, timeout, m, e, m', None)
    ensures ExactAt(cap, timeout, More(t, e), m', k)
  {
    assert Since(More(t, e), k) == Since(t, k);
  }

  /** The number of keys never exceeds the capacity. */
  lemma StepKeepsSize<K>(cap: nat, timeout: nat, m: map<K, nat>, e: Access<K>, m': map<K, nat>, victim: Option<K>)
    requires cap > 0 && |m| <= cap && CacheStep(cap, timeout, m, e, m', victim)
    ensures |m'| <= cap
  {
    if e.Sweep? {
      SubsetSize(m'.Keys, m.Keys);
    } else {
      assert m'.Keys == (if victim.None? then m.Keys else m.Keys - {victim.value}) + {e.key};
    }
  }

  lemma StepKeepsExact<K(!new)>(cap: nat, timeout: nat, t: Trace<K>, m: map<K, nat>, e: Access<K>, m': map<K, nat>,
                                victim: Option<K>)
    requires cap > 0 && Ordered(t) && Exact(cap, timeout, t, m)
    requires CacheStep(cap, timeout, m, e, m', victim)
    ensures Exact(cap, timeout, More(t, e), m')
  {
    StepKeepsSize(cap, timeout, m, e, m', victim);
    forall k ensures ExactAt(cap, timeout, More(t, e), m', k) {
      assert ExactAt(cap, timeout, t, m, k);
      if e.Sweep? {
        SweepKey(cap, timeout, t, m, e, m', k);
      } else if k != e.key {
        TouchOther(cap, timeout, t, m, e, m', victim, k);
      } else {
        assert Since(More(t, e), k) == {};
      }
    }
  }
}
