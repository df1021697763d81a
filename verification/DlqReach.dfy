/** What interleaved calls of src/output/dlq.rs can bring about: how far the byte
    bound is reached, and when the branch that resets the breaker runs. */
module DlqReachability {
  import opened Wire
  import opened DlqProtocol

  /** Some schedule of `callers` callers leads to `s`. */
  ghost predicate Reachable(threshold: nat, maxPayload: nat, initial: nat, callers: nat, s: State) {
    exists schedule :: Execute(threshold, maxPayload, Initial(initial, callers), schedule) == s
  }

  lemma {:induction false} ExecuteStep(threshold: nat, maxPayload: nat, s: State, schedule: seq<Move>, m: Move)
    ensures Execute(threshold, maxPayload, s, schedule + [m]) ==
            Step(threshold, maxPayload, Execute(threshold, maxPayload, s, schedule), m)
    decreases |schedule|
  {
    if schedule == [] {
      assert ([m])[1..] == [];
      assert schedule + [m] == [m];
    } else {
      ExecuteStep(threshold, maxPayload, Step(threshold, maxPayload, s, schedule[0]), schedule[1..], m);
      assert (schedule + [m])[1..] == schedule[1..] + [m];
    }
  }

  lemma StartReachable(threshold: nat, maxPayload: nat, initial: nat, callers: nat)
    ensures Reachable(threshold, maxPayload, initial, callers, Initial(initial, callers))
  {
    assert Execute(threshold, maxPayload, Initial(initial, callers), []) == Initial(initial, callers);
  }

  lemma Moved(threshold: nat, maxPayload: nat, initial: nat, callers: nat, s: State, m: Move)
    requires Reachable(threshold, maxPayload, initial, callers, s)
    ensures Reachable(threshold, maxPayload, initial, callers, Step(threshold, maxPayload, s, m))
  {
    var schedule :| Execute(threshold, maxPayload, Initial(initial, callers), schedule) == s;
    ExecuteStep(threshold, maxPayload, Initial(initial, callers), schedule, m);
  }

  predicate AtRest(c: Call) {
    c.Idle? || c.Done?
  }

  /** A closed breaker, and every caller but `i` where it was. */
  predicate OnlyMoved(s: State, s': State, i: nat) {
    && |s'.calls| == |s.calls| && !s'.open
    && forall j :: 0 <= j < |s.calls| && j != i ==> s'.calls[j] == s.calls[j]
  }

  /** A caller at rest passes the check. */
  lemma Pass(threshold: nat, maxPayload: nat, initial: nat, callers: nat, s: State, i: nat, p: bytes)
    returns (s': State)
    requires Reachable(threshold, maxPayload, initial, callers, s)
    requires i < |s.calls| && AtRest(s.calls[i]) && |p| <= maxPayload
    requires !s.open && s.current < threshold
    ensures Reachable(threshold, maxPayload, initial, callers, s')
    ensures OnlyMoved(s, s', i) && s'.current == s.current && s'.calls[i] == Probing(p, s.current)
  {
    var s1 := Step(threshold, maxPayload, s, Start(i, p));
    s' := Step(threshold, maxPayload, s1, Go(i, true));
    Moved(threshold, maxPayload, initial, callers, s, Start(i, p));
    Moved(threshold, maxPayload, initial, callers, s1, Go(i, true));
  }

  /** A caller past the check writes its file and charges it. */
  lemma Charge(threshold: nat, maxPayload: nat, initial: nat, callers: nat, s: State, i: nat) returns (s': State)
    requires Reachable(threshold, maxPayload, initial, callers, s)
    requires i < |s.calls| && s.calls[i].Probing? && !s.open
    ensures Reachable(threshold, maxPayload, initial, callers, s')
    ensures OnlyMoved(s, s', i) && s'.current == s.current + |s.calls[i].payload| && AtRest(s'.calls[i])
  {
    var m := Go(i, true);
    var s1 := Step(threshold, maxPayload, s, m);
    var s2 := Step(threshold, maxPayload, s1, m);
    var s3 := Step(threshold, maxPayload, s2, m);
    var s4 := Step(threshold, maxPayload, s3, m);
    s' := Step(threshold, maxPayload, s4, m);
    Moved(threshold, maxPayload, initial, callers, s, m);
    Moved(threshold, maxPayload, initial, callers, s1, m);
    Moved(threshold, maxPayload, initial, callers, s2, m);
    Moved(threshold, maxPayload, initial, callers, s3, m);
    Moved(threshold, maxPayload, initial, callers, s4, m);
    assert s1.calls[i].Numbering? && s2.calls[i].Writing? && s3.calls[i].Charging? && s4.calls[i].Counting?;
  }

  /** One caller fills the queue up to `goal`, a byte at a time. */
  lemma {:induction false} Fill(threshold: nat, maxPayload: nat, initial: nat, callers: nat, s: State, i: nat,
                                goal: nat)
    returns (s': State)
    requires Reachable(threshold, maxPayload, initial, callers, s)
    requires i < |s.calls| && AtRest(s.calls[i]) && maxPayload >= 1
    requires !s.open && s.current <= goal <= threshold
    ensures Reachable(threshold, maxPayload, initial, callers, s')
    ensures OnlyMoved(s, s', i) && s'.current == goal && AtRest(s'.calls[i])
    decreases goal - s.current
  {
    s' := s;
    if s.current < goal {
      var s1 := Pass(threshold, maxPayload, initial, callers, s, i, [0]);
      var s2 := Charge(threshold, maxPayload, initial, callers, s1, i);
      s' := Fill(threshold, maxPayload, initial, callers, s2, i, goal);
    }
  }

  /** The first `k` callers are past the check with `p`, and the others at rest. */
  predicate Passed(s: State, k: nat, p: bytes) {
    k <= |s.calls| && forall i :: 0 <= i < |s.calls| ==>
      if i < k then s.calls[i].Probing? && s.calls[i].payload == p else AtRest(s.calls[i])
  }

  /** While nobody charges, every caller passes the check. */
  lemma {:induction false} AllPass(threshold: nat, maxPayload: nat, initial: nat, callers: nat, s: State, k: nat,
                                   p: bytes)
    returns (s': State)
    requires Reachable(threshold, maxPayload, initial, callers, s) && Passed(s, k, p) && |p| <= maxPayload
    requires !s.open && s.current < threshold
    ensures Reachable(threshold, maxPayload, initial, callers, s') && Passed(s', |s'.calls|, p)
    ensures |s'.calls| == |s.calls| && !s'.open && s'.current == s.current
    decreases |s.calls| - k
  {
    s' := s;
    if k < |s.calls| {
      var s1 := Pass(threshold, maxPayload, initial, callers, s, k, p);
      s' := AllPass(threshold, maxPayload, initial, callers, s1, k + 1, p);
    }
  }

  /** Then they all charge, one after the other. */
  lemma {:induction false} AllCharge(threshold: nat, maxPayload: nat, initial: nat, callers: nat, s: State, k: nat,
                                     p: bytes)
    returns (s': State)
    requires Reachable(threshold, maxPayload, initial, callers, s) && Passed(s, k, p) && !s.open
    ensures Reachable(threshold, maxPayload, initial, callers, s') && s'.current == s.current + k * |p|
    decreases k
  {
    s' := s;
    if k > 0 {
      var s1 := Charge(threshold, maxPayload, initial, callers, s, k - 1);
      s' := AllCharge(threshold, maxPayload, initial, callers, s1, k - 1, p);
      assert k * |p| == (k - 1) * |p| + |p|;
    }
  }

  /** A queue that starts full takes nothing more. */
  lemma {:induction false} FullNeverGrows(threshold: nat, maxPayload: nat, s: State, schedule: seq<Move>)
    requires s.current >= threshold && forall i :: 0 <= i < |s.calls| ==> NeverPassed(s.calls[i])
    ensures Execute(threshold, maxPayload, s, schedule).current == s.current
    decreases |schedule|
  {
    if schedule != [] {
      FullNeverGrows(threshold, maxPayload, Step(threshold, maxPayload, s, schedule[0]), schedule[1..]);
    }
  }

  /** Nor does it grow without callers, or by payloads of no bytes. */
  lemma {:induction false} NothingToCharge(threshold: nat, maxPayload: nat, s: State, schedule: seq<Move>)
    requires SmallPayloads(maxPayload, s) && (maxPayload == 0 || s.calls == [])
    ensures Execute(threshold, maxPayload, s, schedule).current == s.current
    decreases |schedule|
  {
    if schedule != [] {
      StepSmall(threshold, maxPayload, s, schedule[0]);
      NothingToCharge(threshold, maxPayload, Step(threshold, maxPayload, s, schedule[0]), schedule[1..]);
    }
  }

  ghost predicate CanReach(threshold: nat, maxPayload: nat, initial: nat, callers: nat, total: int) {
    exists s :: Reachable(threshold, maxPayload, initial, callers, s) && s.current == total
  }

  /** All callers pass the check one byte below the threshold. */
  lemma BoundReached(threshold: nat, maxPayload: nat, initial: nat, callers: nat)
    requires initial < threshold && callers > 0 && maxPayload > 0
    ensures CanReach(threshold, maxPayload, initial, callers, threshold - 1 + callers * maxPayload)
  {
    var p := seq(maxPayload, _ => 0);
    StartReachable(threshold, maxPayload, initial, callers);
    var s0 := Fill(threshold, maxPayload, initial, callers, Initial(initial, callers), 0, threshold - 1);
    var s1 := AllPass(threshold, maxPayload, initial, callers, s0, 0, p);
    var s2 := AllCharge(threshold, maxPayload, initial, callers, s1, callers, p);
  }

  lemma NeverGrows(threshold: nat, maxPayload: nat, initial: nat, callers: nat, s: State)
    requires Reachable(threshold, maxPayload, initial, callers, s)
    requires initial >= threshold || callers == 0 || maxPayload == 0
    ensures s.current == initial
  {
    var schedule :| Execute(threshold, maxPayload, Initial(initial, callers), schedule) == s;
    if initial >= threshold {
      FullNeverGrows(threshold, maxPayload, Initial(initial, callers), schedule);
    } else {
      NothingToCharge(threshold, maxPayload, Initial(initial, callers), schedule);
    }
  }

  /** The byte bound is tight for every number of callers: it is reached exactly
      when the queue starts at it, or starts below the threshold with somebody to
      write something. */
  lemma BoundIsReachedIff(threshold: nat, maxPayload: nat, initial: nat, callers: nat)
    ensures CanReach(threshold, maxPayload, initial, callers, Max(initial, threshold - 1 + callers * maxPayload)) <==>
            || initial >= threshold - 1 + callers * maxPayload
            || (initial < threshold && callers > 0 && maxPayload > 0)
  {
    var bound := threshold - 1 + callers * maxPayload;
    if initial >= bound {
      StartReachable(threshold, maxPayload, initial, callers);
    } else if initial < threshold && callers > 0 && maxPayload > 0 {
      BoundReached(threshold, maxPayload, initial, callers);
    } else {
      forall s | Reachable(threshold, maxPayload, initial, callers, s) ensures s.current == initial {
        NeverGrows(threshold, maxPayload, initial, callers, s);
      }
    }
  }

  predicate Resetting(s: State) {
    exists i :: 0 <= i < |s.calls| && s.calls[i].Closing?
  }

  /** Nobody resets the breaker, and nobody past the check has an old reading
      below half the threshold. */
  predicate NoReset(threshold: nat, s: State) {
    && BreakerSound(threshold, s)
    && forall i :: 0 <= i < |s.calls| ==>
         !s.calls[i].Closing? &&
         (s.calls[i].Probing? ==> s.calls[i].seen == s.current || s.calls[i].seen >= threshold / 2)
  }

  /** Nobody's reading can grow old while it is below half the threshold. */
  predicate ReadingsStay(threshold: nat, maxPayload: nat, s: State) {
    maxPayload == 0 || |s.calls| <= 1 || s.current >= threshold / 2
  }

  lemma StepNoReset(threshold: nat, maxPayload: nat, s: State, m: Move)
    requires NoReset(threshold, s) && SmallPayloads(maxPayload, s) && ReadingsStay(threshold, maxPayload, s)
    ensures NoReset(threshold, Step(threshold, maxPayload, s, m))
    ensures ReadingsStay(threshold, maxPayload, Step(threshold, maxPayload, s, m))
  {
    StepSound(threshold, maxPayload, s, m);
    StepCaller(threshold, maxPayload, s, m);
  }

  lemma {:induction false} ExecuteNoReset(threshold: nat, maxPayload: nat, s: State, schedule: seq<Move>)
    requires NoReset(threshold, s) && SmallPayloads(maxPayload, s) && ReadingsStay(threshold, maxPayload, s)
    ensures NoReset(threshold, Execute(threshold, maxPayload, s, schedule))
    decreases |schedule|
  {
    if schedule != [] {
      StepNoReset(threshold, maxPayload, s, schedule[0]);
      StepSmall(threshold, maxPayload, s, schedule[0]);
      ExecuteNoReset(threshold, maxPayload, Step(threshold, maxPayload, s, schedule[0]), schedule[1..]);
    }
  }

  /** A caller at rest finds the queue full and opens the breaker. */
  lemma Trip(threshold: nat, maxPayload: nat, initial: nat, callers: nat, s: State, i: nat) returns (s': State)
    requires Reachable(threshold, maxPayload, initial, callers, s)
    requires i < |s.calls| && AtRest(s.calls[i]) && !s.open && s.current >= threshold
    ensures Reachable(threshold, maxPayload, initial, callers, s')
    ensures s'.open && |s'.calls| == |s.calls|
    ensures forall j :: 0 <= j < |s.calls| && j != i ==> s'.calls[j] == s.calls[j]
  {
    var m := Go(i, true);
    var s1 := Step(threshold, maxPayload, s, Start(i, []));
    var s2 := Step(threshold, maxPayload, s1, m);
    var s3 := Step(threshold, maxPayload, s2, m);
    s' := Step(threshold, maxPayload, s3, m);
    Moved(threshold, maxPayload, initial, callers, s, Start(i, []));
    Moved(threshold, maxPayload, initial, callers, s1, m);
    Moved(threshold, maxPayload, initial, callers, s2, m);
    Moved(threshold, maxPayload, initial, callers, s3, m);
    assert s1.calls[i].Loading? && s2.calls[i].Tripping? && s3.calls[i].Opening?;
  }

  /** One caller reads a queue below half the threshold; another fills it and
      opens the breaker; the first then finds it open. */
  lemma ResetReached(threshold: nat, maxPayload: nat, initial: nat, callers: nat) returns (s: State)
    requires callers >= 2 && maxPayload >= 1 && initial < threshold / 2
    ensures Reachable(threshold, maxPayload, initial, callers, s) && Resetting(s)
  {
    StartReachable(threshold, maxPayload, initial, callers);
    var s0 := Pass(threshold, maxPayload, initial, callers, Initial(initial, callers), 0, []);
    var s1 := Fill(threshold, maxPayload, initial, callers, s0, 1, threshold);
    var s2 := Trip(threshold, maxPayload, initial, callers, s1, 1);
    s := Step(threshold, maxPayload, s2, Go(0, true));
    Moved(threshold, maxPayload, initial, callers, s2, Go(0, true));
    assert s.calls[0].Closing?;
  }

  /** Exactly when interleaved calls can reach the branch that resets the breaker. */
  lemma ResetReachableIff(threshold: nat, maxPayload: nat, initial: nat, callers: nat)
    ensures (exists s :: Reachable(threshold, maxPayload, initial, callers, s) && Resetting(s)) <==>
            callers >= 2 && maxPayload >= 1 && initial < threshold / 2
  {
    if callers >= 2 && maxPayload >= 1 && initial < threshold / 2 {
      var s := ResetReached(threshold, maxPayload, initial, callers);
    } else {
      forall s | Reachable(threshold, maxPayload, initial, callers, s) ensures !Resetting(s) {
        var schedule :| Execute(threshold, maxPayload, Initial(initial, callers), schedule) == s;
        ExecuteNoReset(threshold, maxPayload, Initial(initial, callers), schedule);
      }
    }
  }

  /** A caller is about to reset the breaker only at or above the threshold. */
  predicate ResetsFull(threshold: nat, s: State) {
    forall i :: 0 <= i < |s.calls| && s.calls[i].Closing? ==> s.current >= threshold
  }

  lemma {:induction false} ExecuteResetsFull(threshold: nat, maxPayload: nat, s: State, schedule: seq<Move>)
    requires BreakerSound(threshold, s) && ResetsFull(threshold, s)
    ensures ResetsFull(threshold, Execute(threshold, maxPayload, s, schedule))
    decreases |schedule|
  {
    if schedule != [] {
      StepSound(threshold, maxPayload, s, schedule[0]);
      ExecuteResetsFull(threshold, maxPayload, Step(threshold, maxPayload, s, schedule[0]), schedule[1..]);
    }
  }

  /** Whenever that branch does run, the queue is full: it closes the breaker at
      or above the threshold, never because space has become free. */
  lemma ResetClosesFullQueue(threshold: nat, maxPayload: nat, initial: nat, callers: nat, s: State, i: nat,
                             writeOk: bool)
    requires Reachable(threshold, maxPayload, initial, callers, s) && i < |s.calls| && s.calls[i].Closing?
    ensures var s' := Step(threshold, maxPayload, s, Go(i, writeOk));
            !s'.open && s'.current == s.current >= threshold
  {
    var schedule :| Execute(threshold, maxPayload, Initial(initial, callers), schedule) == s;
    ExecuteResetsFull(threshold, maxPayload, Initial(initial, callers), schedule);
  }
}
