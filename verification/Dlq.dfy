/** The dead-letter queue of src/output/dlq.rs: `spool` as a protocol of n callers
    on shared atomics, one atomic access per step, in any interleaving. */
module DlqProtocol {
  import opened Wire
  import opened MapSums

  datatype Outcome = Accepted | Dropped | Failed

  /** Where a caller stands; each state names the access it makes next. */
  datatype Call =
    | Idle
    | Loading(payload: bytes)              // load current_bytes
    | Tripping                             // load circuit_open, threshold reached
    | Opening                              // store circuit_open := true
    | Probing(payload: bytes, seen: nat)   // load circuit_open, below the threshold
    | Closing(payload: bytes)              // store circuit_open := false
    | Numbering(payload: bytes)            // fetch_add sequence
    | Writing(payload: bytes, number: nat) // write the file
    | Charging(payload: bytes)             // fetch_add current_bytes
    | Counting                             // fetch_add total_spooled
    | Done(outcome: Outcome)

  datatype State = State(
    current: nat,
    open: bool,
    sequence: nat,
    spooled: nat,
    files: map<nat, bytes>,
    calls: seq<Call>)

  /** The scheduler picks a caller; the caller starts a call or makes its next
      access.  Only the file write can fail. */
  datatype Move = Start(caller: nat, payload: bytes) | Go(caller: nat, writeOk: bool)

  function Enter(s: State, i: nat, c: Call): State
    requires i < |s.calls|
  {
    s.(calls := s.calls[i := c])
  }

  /** One access of caller `i`. */
  function Access(threshold: nat, s: State, i: nat, writeOk: bool): State
    requires i < |s.calls|
  {
    match s.calls[i]
    case Idle => s
    case Loading(p) => Enter(s, i, if s.current >= threshold then Tripping else Probing(p, s.current))
    case Tripping => Enter(s, i, if s.open then Done(Dropped) else Opening)
    case Opening => Enter(s.(open := true), i, Done(Dropped))
    case Probing(p, seen) => Enter(s, i, if s.open && seen < threshold / 2 then Closing(p) else Numbering(p))
    case Closing(p) => Enter(s.(open := false), i, Numbering(p))
    case Numbering(p) => Enter(s.(sequence := s.sequence + 1), i, Writing(p, s.sequence))
    case Writing(p, n) =>
      if writeOk then Enter(s.(files := s.files[n := p]), i, Charging(p)) else Enter(s, i, Done(Failed))
    case Charging(p) => Enter(s.(current := s.current + |p|), i, Counting)
    case Counting => Enter(s.(spooled := s.spooled + 1), i, Done(Accepted))
    case Done(_) => s
  }

  /** One step; a move that is not possible changes nothing. */
  function Step(threshold: nat, maxPayload: nat, s: State, m: Move): State {
    if m.caller >= |s.calls| then s
    else if m.Start? then
      if (s.calls[m.caller].Idle? || s.calls[m.caller].Done?) && |m.payload| <= maxPayload
      then Enter(s, m.caller, Loading(m.payload)) else s
    else Access(threshold, s, m.caller, m.writeOk)
  }

  /** Any interleaving: the state after a whole schedule. */
  function Execute(threshold: nat, maxPayload: nat, s: State, schedule: seq<Move>): State
    decreases |schedule|
  {
    if schedule == [] then s
    else Execute(threshold, maxPayload, Step(threshold, maxPayload, s, schedule[0]), schedule[1..])
  }

  function Initial(current: nat, callers: nat): State {
    State(current, false, 0, 0, map[], seq(callers, _ => Idle))
  }

  /** Sums over the callers. */
  function Sum(calls: seq<Call>, f: Call -> nat): nat {
    if calls == [] then 0 else f(calls[0]) + Sum(calls[1..], f)
  }

  lemma {:induction false} SumUpdate(calls: seq<Call>, i: nat, c: Call, f: Call -> nat)
    requires i < |calls|
    ensures Sum(calls[i := c], f) + f(calls[i]) == Sum(calls, f) + f(c)
  {
    if i == 0 {
      assert calls[i := c][1..] == calls[1..];
    } else {
      SumUpdate(calls[1..], i - 1, c, f);
      assert calls[i := c][1..] == calls[1..][i - 1 := c];
    }
  }

  lemma {:induction false} SumBound(calls: seq<Call>, f: Call -> nat, max: nat)
    requires forall i :: 0 <= i < |calls| ==> f(calls[i]) <= max
    ensures Sum(calls, f) <= |calls| * max
  {
    if calls != [] {
      SumBound(calls[1..], f, max);
      assert |calls| * max == max + |calls[1..]| * max;
    }
  }

  lemma {:induction false} SumZero(calls: seq<Call>, f: Call -> nat)
    requires forall i :: 0 <= i < |calls| ==> f(calls[i]) == 0
    ensures Sum(calls, f) == 0
  {
    if calls != [] {
      SumZero(calls[1..], f);
    }
  }

  /** Bytes a caller past the check may still add to `current_bytes`. */
  function Pending(c: Call): nat {
    match c
    case Probing(p, _) => |p|
    case Closing(p) => |p|
    case Numbering(p) => |p|
    case Writing(p, _) => |p|
    case Charging(p) => |p|
    case _ => 0
  }

  /** Bytes on disk a caller has not yet added to `current_bytes`. */
  function Uncharged(c: Call): nat {
    if c.Charging? then |c.payload| else 0
  }

  /** Files on disk a caller has not yet counted in `total_spooled`. */
  function Uncounted(c: Call): nat {
    if c.Charging? || c.Counting? then 1 else 0
  }

  /** Files a caller past the check may still write. */
  function MayWrite(c: Call): nat {
    if c.Probing? || c.Closing? || c.Numbering? || c.Writing? then 1 else 0
  }

  function SizeOfFile(): bytes -> nat {
    (b: bytes) => |b|
  }

  /** The breaker is open only at or above the threshold. */
  predicate BreakerSound(threshold: nat, s: State) {
    && (s.open ==> s.current >= threshold)
    && forall i :: 0 <= i < |s.calls| && (s.calls[i].Tripping? || s.calls[i].Opening?) ==> s.current >= threshold
  }

  predicate SmallPayloads(maxPayload: nat, s: State) {
    forall i :: 0 <= i < |s.calls| ==>
      Pending(s.calls[i]) <= maxPayload && (s.calls[i].Loading? ==> |s.calls[i].payload| <= maxPayload)
  }

  predicate Bounded(threshold: nat, maxPayload: nat, initial: nat, s: State) {
    s.current + Sum(s.calls, Pending) <= Max(initial, threshold - 1 + |s.calls| * maxPayload)
  }

  /** Every number is used for at most one file. */
  predicate NumbersUnique(s: State) {
    && (forall n :: n in s.files ==> n < s.sequence)
    && (forall i :: 0 <= i < |s.calls| && s.calls[i].Writing? ==>
          s.calls[i].number < s.sequence && s.calls[i].number !in s.files)
    && (forall i, j :: 0 <= i < j < |s.calls| && s.calls[i].Writing? && s.calls[j].Writing? ==>
          s.calls[i].number != s.calls[j].number)
  }

  /** The counters account for what is on disk. */
  ghost predicate Ledger(initial: nat, s: State) {
    && s.current + Sum(s.calls, Uncharged) == initial + Total(s.files, SizeOfFile())
    && s.spooled + Sum(s.calls, Uncounted) == |s.files|
  }

  lemma StepCaller(threshold: nat, maxPayload: nat, s: State, m: Move)
    ensures var s' := Step(threshold, maxPayload, s, m);
            && |s'.calls| == |s.calls|
            && s'.current >= s.current
            && (forall i :: 0 <= i < |s.calls| && i != m.caller ==> s'.calls[i] == s.calls[i])
  {
  }

  lemma StepSound(threshold: nat, maxPayload: nat, s: State, m: Move)
    requires BreakerSound(threshold, s)
    ensures BreakerSound(threshold, Step(threshold, maxPayload, s, m))
  {
  }

  lemma StepSmall(threshold: nat, maxPayload: nat, s: State, m: Move)
    requires SmallPayloads(maxPayload, s)
    ensures SmallPayloads(maxPayload, Step(threshold, maxPayload, s, m))
  {
  }

  /** What a step does to the one caller it moves and to the files. */
  lemma StepLocal(threshold: nat, maxPayload: nat, s: State, m: Move)
    requires m.caller < |s.calls|
    ensures var s' := Step(threshold, maxPayload, s, m);
            var c, c' := s.calls[m.caller], s'.calls[m.caller];
            && s'.calls == s.calls[m.caller := c']
            && s'.files == (if c.Writing? && c'.Charging? then s.files[c.number := c.payload] else s.files)
  {
  }

  /** What it does to the counters. */
  lemma StepCounters(threshold: nat, maxPayload: nat, s: State, m: Move)
    requires m.caller < |s.calls|
    ensures var s' := Step(threshold, maxPayload, s, m);
            var c, c' := s.calls[m.caller], s'.calls[m.caller];
            && (s'.current + Pending(c') <= s.current + Pending(c) || (s'.current == s.current < threshold))
            && s'.spooled + Uncounted(c') == s.spooled + Uncounted(c) + (if c.Writing? && c'.Charging? then 1 else 0)
            && s'.current + Uncharged(c')
               == s.current + Uncharged(c) + (if c.Writing? && c'.Charging? then |c.payload| else 0)
            && (s.current >= threshold ==> MayWrite(c') + (if c.Writing? && c'.Charging? then 1 else 0) <= MayWrite(c))
  {
  }

  lemma StepBounded(threshold: nat, maxPayload: nat, initial: nat, s: State, m: Move)
    requires SmallPayloads(maxPayload, s) && Bounded(threshold, maxPayload, initial, s)
    requires SmallPayloads(maxPayload, Step(threshold, maxPayload, s, m))
    ensures Bounded(threshold, maxPayload, initial, Step(threshold, maxPayload, s, m))
  {
    if m.caller < |s.calls| {
      StepLocal(threshold, maxPayload, s, m);
      StepCounters(threshold, maxPayload, s, m);
      var s' := Step(threshold, maxPayload, s, m);
      BoundedAfter(threshold, maxPayload, initial, s, s', m.caller);
    }
  }

  /** The sums behind `Bounded`, apart from the protocol. */
  lemma BoundedAfter(threshold: nat, maxPayload: nat, initial: nat, s: State, s': State, i: nat)
    requires i < |s.calls| && |s'.calls| == |s.calls| && s'.calls == s.calls[i := s'.calls[i]]
    requires SmallPayloads(maxPayload, s') && Bounded(threshold, maxPayload, initial, s)
    requires s'.current + Pending(s'.calls[i]) <= s.current + Pending(s.calls[i]) || s'.current < threshold
    ensures Bounded(threshold, maxPayload, initial, s')
  {
    SumBound(s'.calls, Pending, maxPayload);
    SumUpdate(s.calls, i, s'.calls[i], Pending);
  }

  /** A caller that takes the next number. */
  lemma UniqueAfterNumbering(s: State, i: nat, p: bytes)
    requires NumbersUnique(s) && i < |s.calls|
    ensures NumbersUnique(Enter(s.(sequence := s.sequence + 1), i, Writing(p, s.sequence)))
  {
  }

  /** A caller that writes its file. */
  lemma UniqueAfterWriting(s: State, i: nat)
    requires NumbersUnique(s) && i < |s.calls| && s.calls[i].Writing?
    ensures var c := s.calls[i];
            NumbersUnique(Enter(s.(files := s.files[c.number := c.payload]), i, Charging(c.payload)))
  {
  }

  /** A caller that does anything else. */
  lemma UniqueAfterOther(s: State, s': State, i: nat)
    requires NumbersUnique(s) && i < |s.calls| && |s'.calls| == |s.calls| && s'.calls == s.calls[i := s'.calls[i]]
    requires !s'.calls[i].Writing? && s'.files == s.files && s'.sequence == s.sequence
    ensures NumbersUnique(s')
  {
  }

  lemma StepUnique(threshold: nat, maxPayload: nat, s: State, m: Move)
    requires NumbersUnique(s)
    ensures NumbersUnique(Step(threshold, maxPayload, s, m))
  {
    if m.caller < |s.calls| {
      var s' := Step(threshold, maxPayload, s, m);
      var c := s.calls[m.caller];
      StepLocal(threshold, maxPayload, s, m);
      if m.Go? && c.Numbering? {
        UniqueAfterNumbering(s, m.caller, c.payload);
      } else if m.Go? && c.Writing? && m.writeOk {
        UniqueAfterWriting(s, m.caller);
      } else if s' != s {
        UniqueAfterOther(s, s', m.caller);
      }
    }
  }

  lemma StepLedger(threshold: nat, maxPayload: nat, initial: nat, s: State, m: Move)
    requires NumbersUnique(s) && Ledger(initial, s)
    ensures Ledger(initial, Step(threshold, maxPayload, s, m))
  {
    if m.caller < |s.calls| {
      var s' := Step(threshold, maxPayload, s, m);
      var c, c' := s.calls[m.caller], s'.calls[m.caller];
      StepLocal(threshold, maxPayload, s, m);
      StepCounters(threshold, maxPayload, s, m);
      SumUpdate(s.calls, m.caller, c', Uncharged);
      SumUpdate(s.calls, m.caller, c', Uncounted);
      if c.Writing? && c'.Charging? {
        FileAdded(s.files, c.number, c.payload);
      }
    }
  }

  lemma FileAdded(files: map<nat, bytes>, n: nat, p: bytes)
    requires n !in files
    ensures Total(files[n := p], SizeOfFile()) == Total(files, SizeOfFile()) + |p|
    ensures |files[n := p]| == |files| + 1
  {
    TotalUpdate(files, n, p, SizeOfFile());
    assert files - {n} == files;
  }

  lemma InitialHolds(threshold: nat, maxPayload: nat, current: nat, callers: nat)
    ensures var s := Initial(current, callers);
            && BreakerSound(threshold, s) && SmallPayloads(maxPayload, s) && NumbersUnique(s)
            && Bounded(threshold, maxPayload, current, s) && Ledger(current, s)
  {
    var s := Initial(current, callers);
    SumZero(s.calls, Pending);
    SumZero(s.calls, Uncharged);
    SumZero(s.calls, Uncounted);
  }

  /** Everything above, after any schedule. */
  lemma {:induction false} ExecuteKeeps(threshold: nat, maxPayload: nat, initial: nat, s: State, schedule: seq<Move>)
    requires BreakerSound(threshold, s) && SmallPayloads(maxPayload, s) && NumbersUnique(s)
    requires Bounded(threshold, maxPayload, initial, s) && Ledger(initial, s)
    ensures var e := Execute(threshold, maxPayload, s, schedule);
            && BreakerSound(threshold, e) && SmallPayloads(maxPayload, e) && NumbersUnique(e)
            && Bounded(threshold, maxPayload, initial, e) && Ledger(initial, e)
            && |e.calls| == |s.calls| && e.current >= s.current
    decreases |schedule|
  {
    if schedule != [] {
      StepCaller(threshold, maxPayload, s, schedule[0]);
      StepSound(threshold, maxPayload, s, schedule[0]);
      StepSmall(threshold, maxPayload, s, schedule[0]);
      StepBounded(threshold, maxPayload, initial, s, schedule[0]);
      StepUnique(threshold, maxPayload, s, schedule[0]);
      StepLedger(threshold, maxPayload, initial, s, schedule[0]);
      ExecuteKeeps(threshold, maxPayload, initial, Step(threshold, maxPayload, s, schedule[0]), schedule[1..]);
    }
  }

  /** The bound, the breaker and the books, in every interleaving of n callers
      with payloads of at most `maxPayload` bytes. */
  lemma EveryInterleaving(threshold: nat, maxPayload: nat, initial: nat, callers: nat, schedule: seq<Move>)
    ensures var e := Execute(threshold, maxPayload, Initial(initial, callers), schedule);
            && e.current <= Max(initial, threshold - 1 + callers * maxPayload)
            && (e.open ==> e.current >= threshold)
            && e.current + Sum(e.calls, Uncharged) == initial + Total(e.files, SizeOfFile())
            && e.spooled + Sum(e.calls, Uncounted) == |e.files|
            && (forall n :: n in e.files ==> n < e.sequence)
  {
    InitialHolds(threshold, maxPayload, initial, callers);
    ExecuteKeeps(threshold, maxPayload, initial, Initial(initial, callers), schedule);
  }

  /** Not past the threshold check in the current call. */
  predicate NeverPassed(c: Call) {
    c.Idle? || c.Loading? || c.Tripping? || c.Opening? || c.Done?
  }

  /** Once the threshold is reached, a call that has not passed the check, and
      every later call of the same caller, never writes. */
  lemma {:induction false} LateCallsNeverWrite(threshold: nat, maxPayload: nat, s: State, schedule: seq<Move>, i: nat)
    requires s.current >= threshold && i < |s.calls| && NeverPassed(s.calls[i])
    ensures var e := Execute(threshold, maxPayload, s, schedule);
            i < |e.calls| && NeverPassed(e.calls[i]) && e.current >= threshold
    decreases |schedule|
  {
    if schedule != [] {
      StepCaller(threshold, maxPayload, s, schedule[0]);
      LateCallsNeverWrite(threshold, maxPayload, Step(threshold, maxPayload, s, schedule[0]), schedule[1..], i);
    }
  }

  /** After the threshold is reached, at most the callers already past the check
      add a file. */
  lemma {:induction false} LateFilesBounded(threshold: nat, maxPayload: nat, s: State, schedule: seq<Move>)
    requires s.current >= threshold && NumbersUnique(s)
    ensures var e := Execute(threshold, maxPayload, s, schedule);
            |e.files| + Sum(e.calls, MayWrite) <= |s.files| + Sum(s.calls, MayWrite)
    decreases |schedule|
  {
    if schedule != [] {
      var m := schedule[0];
      var s' := Step(threshold, maxPayload, s, m);
      StepCaller(threshold, maxPayload, s, m);
      StepUnique(threshold, maxPayload, s, m);
      if m.caller < |s.calls| {
        StepLocal(threshold, maxPayload, s, m);
        StepCounters(threshold, maxPayload, s, m);
        SumUpdate(s.calls, m.caller, s'.calls[m.caller], MayWrite);
        if s'.files != s.files {
          FileAdded(s.files, s.calls[m.caller].number, s.calls[m.caller].payload);
        }
      }
      LateFilesBounded(threshold, maxPayload, s', schedule[1..]);
    }
  }

  /** A spooled file is never overwritten. */
  lemma {:induction false} FilesKept(threshold: nat, maxPayload: nat, s: State, schedule: seq<Move>, n: nat)
    requires NumbersUnique(s) && n in s.files
    ensures var e := Execute(threshold, maxPayload, s, schedule);
            n in e.files && e.files[n] == s.files[n]
    decreases |schedule|
  {
    if schedule != [] {
      StepUnique(threshold, maxPayload, s, schedule[0]);
      FilesKept(threshold, maxPayload, Step(threshold, maxPayload, s, schedule[0]), schedule[1..], n);
    }
  }
}

/** The queue object, one call at a time, and how that relates to the protocol. */
module Dlq {
  import opened Wire
  import opened DlqProtocol

  /** Share of the size limit, truncated to an integer as the cast does. */
  function Threshold(maxBytes: nat, fraction: real): nat {
    if fraction <= 0.0 then 0 else (maxBytes as real * fraction).Floor
  }

  /** The threshold is the share rounded down. */
  lemma ThresholdExact(maxBytes: nat, fraction: real)
    ensures var t, share := Threshold(maxBytes, fraction), maxBytes as real * fraction;
            && (fraction > 0.0 ==> t as real <= share < t as real + 1.0)
            && (fraction <= 0.0 ==> t == 0)
  {
  }

  datatype Queue = Queue(current: nat, open: bool, sequence: nat, spooled: nat, files: map<nat, bytes>)

  /** A call that nothing interleaves with. */
  function Spooled(threshold: nat, q: Queue, payload: bytes, writeOk: bool): (Queue, Outcome) {
    if q.current >= threshold then (q.(open := true), Dropped)
    else
      var q1 := q.(open := q.open && q.current >= threshold / 2, sequence := q.sequence + 1);
      if writeOk then
        (q1.(current := q.current + |payload|, spooled := q.spooled + 1, files := q.files[q.sequence := payload]),
         Accepted)
      else (q1, Failed)
  }

  class DeadLetterQueue {
    var currentBytes: nat
    var circuitOpen: bool
    var sequence: nat
    var totalSpooled: nat
    var disk: map<nat, bytes>
    const maxBytes: nat
    const circuitBreakerThreshold: real

    constructor (maxBytes: nat, circuitBreakerThreshold: real, currentBytes: nat)
      ensures View() == Queue(currentBytes, false, 0, 0, map[])
      ensures this.maxBytes == maxBytes && this.circuitBreakerThreshold == circuitBreakerThreshold
    {
      this.maxBytes := maxBytes;
      this.circuitBreakerThreshold := circuitBreakerThreshold;
      this.currentBytes := currentBytes;
      circuitOpen := false;
      sequence := 0;
      totalSpooled := 0;
      disk := map[];
    }

    function View(): Queue
      reads this
    {
      Queue(currentBytes, circuitOpen, sequence, totalSpooled, disk)
    }

    /** Spool a failed event; `writeOk` says whether the file write succeeds. */
    method Spool(payload: bytes, writeOk: bool) returns (outcome: Outcome)
      modifies this
      ensures (View(), outcome) == Spooled(Threshold(maxBytes, circuitBreakerThreshold), old(View()), payload, writeOk)
    {
      var current := currentBytes;
      var threshold := Threshold(maxBytes, circuitBreakerThreshold);

      if current >= threshold {
        if !circuitOpen {
          circuitOpen := true;
        }
        return Dropped;
      }

      if circuitOpen && current < threshold / 2 {
        circuitOpen := false;
      }

      var seq' := sequence;
      sequence := sequence + 1;
      if !writeOk {
        return Failed;
      }
      disk := disk[seq' := payload];
      currentBytes := currentBytes + |payload|;
      totalSpooled := totalSpooled + 1;
      return Accepted;
    }
  }

  function Solo(q: Queue, c: Call): State {
    State(q.current, q.open, q.sequence, q.spooled, q.files, [c])
  }

  /** A caller that is never interrupted makes its next accesses. */
  function Uninterrupted(threshold: nat, s: State, writeOk: bool, accesses: nat): State
    requires |s.calls| == 1
    decreases accesses
  {
    if accesses == 0 then s else Uninterrupted(threshold, Access(threshold, s, 0, writeOk), writeOk, accesses - 1)
  }

  lemma Next(threshold: nat, s: State, writeOk: bool, accesses: nat)
    requires |s.calls| == 1 && accesses > 0
    ensures |Access(threshold, s, 0, writeOk).calls| == 1
    ensures Uninterrupted(threshold, s, writeOk, accesses)
         == Uninterrupted(threshold, Access(threshold, s, 0, writeOk), writeOk, accesses - 1)
  {
  }

  lemma {:induction false} Settled(threshold: nat, s: State, writeOk: bool, accesses: nat)
    requires |s.calls| == 1 && s.calls[0].Done?
    ensures Uninterrupted(threshold, s, writeOk, accesses) == s
    decreases accesses
  {
    if accesses > 0 {
      Settled(threshold, s, writeOk, accesses - 1);
    }
  }

  lemma EnterSolo(q: Queue, c: Call, c': Call)
    ensures Enter(Solo(q, c), 0, c') == Solo(q, c')
  {
    assert [c][0 := c'] == [c'];
  }

  /** The scheduler gives the only caller all its turns. */
  lemma {:induction false} UninterruptedIsSchedule(threshold: nat, maxPayload: nat, s: State, writeOk: bool,
                                                   accesses: nat)
    requires |s.calls| == 1
    ensures Execute(threshold, maxPayload, s, seq(accesses, _ => Go(0, writeOk)))
         == Uninterrupted(threshold, s, writeOk, accesses)
    decreases accesses
  {
    if accesses > 0 {
      UninterruptedIsSchedule(threshold, maxPayload, Access(threshold, s, 0, writeOk), writeOk, accesses - 1);
      assert seq(accesses, _ => Go(0, writeOk))[1..] == seq(accesses - 1, _ => Go(0, writeOk));
    }
  }

  /** The last two accesses of a call whose file is on disk. */
  lemma FromCharging(threshold: nat, q: Queue, payload: bytes, accesses: nat)
    requires accesses >= 2
    ensures Uninterrupted(threshold, Solo(q, Charging(payload)), true, accesses)
         == Solo(q.(current := q.current + |payload|, spooled := q.spooled + 1), Done(Accepted))
  {
    var q1 := q.(current := q.current + |payload|);
    var q2 := q1.(spooled := q.spooled + 1);
    Next(threshold, Solo(q, Charging(payload)), true, accesses);
    EnterSolo(q1, Charging(payload), Counting);
    Next(threshold, Solo(q1, Counting), true, accesses - 1);
    EnterSolo(q2, Counting, Done(Accepted));
    Settled(threshold, Solo(q2, Done(Accepted)), true, accesses - 2);
  }

  /** The last four accesses of a call that passed the check. */
  lemma FromNumbering(threshold: nat, q: Queue, payload: bytes, writeOk: bool, accesses: nat)
    requires accesses >= 4
    ensures var q1 := q.(sequence := q.sequence + 1);
            Uninterrupted(threshold, Solo(q, Numbering(payload)), writeOk, accesses) ==
            if writeOk
            then Solo(q1.(current := q.current + |payload|, spooled := q.spooled + 1,
                          files := q.files[q.sequence := payload]), Done(Accepted))
            else Solo(q1, Done(Failed))
  {
    var q1 := q.(sequence := q.sequence + 1);
    Next(threshold, Solo(q, Numbering(payload)), writeOk, accesses);
    EnterSolo(q1, Numbering(payload), Writing(payload, q.sequence));
    Next(threshold, Solo(q1, Writing(payload, q.sequence)), writeOk, accesses - 1);
    if writeOk {
      var q2 := q1.(files := q.files[q.sequence := payload]);
      EnterSolo(q2, Writing(payload, q.sequence), Charging(payload));
      FromCharging(threshold, q2, payload, accesses - 2);
    } else {
      EnterSolo(q1, Writing(payload, q.sequence), Done(Failed));
      Settled(threshold, Solo(q1, Done(Failed)), writeOk, accesses - 2);
    }
  }

  /** A sequential call is the protocol run without interruption. */
  lemma SoloIsProtocol(threshold: nat, q: Queue, payload: bytes, writeOk: bool)
    ensures var (q', outcome) := Spooled(threshold, q, payload, writeOk);
            Execute(threshold, |payload|, Solo(q, Loading(payload)), seq(7, _ => Go(0, writeOk)))
            == Solo(q', Done(outcome))
  {
    var s := Solo(q, Loading(payload));
    UninterruptedIsSchedule(threshold, |payload|, s, writeOk, 7);
    Next(threshold, s, writeOk, 7);
    if q.current >= threshold {
      EnterSolo(q, Loading(payload), Tripping);
      Next(threshold, Solo(q, Tripping), writeOk, 6);
      if q.open {
        EnterSolo(q, Tripping, Done(Dropped));
        Settled(threshold, Solo(q, Done(Dropped)), writeOk, 5);
      } else {
        EnterSolo(q, Tripping, Opening);
        Next(threshold, Solo(q, Opening), writeOk, 5);
        EnterSolo(q.(open := true), Opening, Done(Dropped));
        Settled(threshold, Solo(q.(open := true), Done(Dropped)), writeOk, 4);
      }
    } else {
      EnterSolo(q, Loading(payload), Probing(payload, q.current));
      Next(threshold, Solo(q, Probing(payload, q.current)), writeOk, 6);
      if q.open && q.current < threshold / 2 {
        EnterSolo(q, Probing(payload, q.current), Closing(payload));
        Next(threshold, Solo(q, Closing(payload)), writeOk, 5);
        EnterSolo(q.(open := false), Closing(payload), Numbering(payload));
        FromNumbering(threshold, q.(open := false), payload, writeOk, 4);
      } else {
        EnterSolo(q, Probing(payload, q.current), Numbering(payload));
        FromNumbering(threshold, q, payload, writeOk, 5);
      }
    }
  }

  /** A sequential run: the outcomes of a list of calls. */
  function Outcomes(threshold: nat, q: Queue, calls: seq<(bytes, bool)>): (os: seq<Outcome>)
    ensures |os| == |calls|
    decreases |calls|
  {
    if calls == [] then []
    else
      var (q', outcome) := Spooled(threshold, q, calls[0].0, calls[0].1);
      [outcome] + Outcomes(threshold, q', calls[1..])
  }

  function After(threshold: nat, q: Queue, calls: seq<(bytes, bool)>): Queue
    decreases |calls|
  {
    if calls == [] then q
    else After(threshold, Spooled(threshold, q, calls[0].0, calls[0].1).0, calls[1..])
  }

  /** In a sequential run the branch that resets the breaker is unreachable. */
  lemma {:induction false} ResetUnreachable(threshold: nat, q: Queue, calls: seq<(bytes, bool)>)
    requires q.open ==> q.current >= threshold
    ensures var e := After(threshold, q, calls);
            && (e.open ==> e.current >= threshold)
            && !(e.current < threshold && e.open && e.current < threshold / 2)
            && e.current >= q.current
    decreases |calls|
  {
    if calls != [] {
      ResetUnreachable(threshold, Spooled(threshold, q, calls[0].0, calls[0].1).0, calls[1..]);
    }
  }

  lemma {:induction false} FullDropsAll(threshold: nat, q: Queue, calls: seq<(bytes, bool)>, j: nat)
    requires q.current >= threshold && j < |calls|
    ensures Outcomes(threshold, q, calls)[j] == Dropped
    decreases |calls|
  {
    if j > 0 {
      FullDropsAll(threshold, Spooled(threshold, q, calls[0].0, calls[0].1).0, calls[1..], j - 1);
    }
  }

  /** In a sequential run every accepted event precedes every dropped one. */
  lemma {:induction false} DropsAreFinal(threshold: nat, q: Queue, calls: seq<(bytes, bool)>, i: nat, j: nat)
    requires i <= j < |calls| && Outcomes(threshold, q, calls)[i] == Dropped
    ensures Outcomes(threshold, q, calls)[j] == Dropped
    decreases |calls|
  {
    if i == 0 {
      FullDropsAll(threshold, q, calls, j);
    } else {
      DropsAreFinal(threshold, Spooled(threshold, q, calls[0].0, calls[0].1).0, calls[1..], i - 1, j - 1);
    }
  }

  function CountOf(os: seq<Outcome>, o: Outcome): nat {
    if os == [] then 0 else (if os[0] == o then 1 else 0) + CountOf(os[1..], o)
  }

  /** The bytes of the calls that were accepted. */
  function AcceptedBytes(calls: seq<(bytes, bool)>, os: seq<Outcome>): nat
    requires |os| == |calls|
  {
    if calls == [] then 0
    else (if os[0] == Accepted then |calls[0].0| else 0) + AcceptedBytes(calls[1..], os[1..])
  }

  /** The outcome of each call in a sequential run, from the bytes accepted before
      it and the fate of its own file write. */
  lemma {:induction false} OutcomeIff(threshold: nat, q: Queue, calls: seq<(bytes, bool)>, i: nat)
    requires i < |calls|
    ensures var os := Outcomes(threshold, q, calls);
            var full := q.current + AcceptedBytes(calls[..i], os[..i]) >= threshold;
            && (os[i] == Dropped <==> full)
            && (os[i] == Accepted <==> !full && calls[i].1)
            && (os[i] == Failed <==> !full && !calls[i].1)
    decreases |calls|
  {
    if i > 0 {
      var os := Outcomes(threshold, q, calls);
      OutcomeIff(threshold, Spooled(threshold, q, calls[0].0, calls[0].1).0, calls[1..], i - 1);
      assert calls[..i][1..] == calls[1..][..i - 1] && os[..i][1..] == os[1..][..i - 1];
    }
  }

  /** The counters after a sequential run, from its outcomes: bytes of the accepted
      payloads, one sequence number per file write tried, one spooled event per
      accepted call, and a breaker that is open once a call has been dropped. */
  lemma {:induction false} SequentialBooks(threshold: nat, q: Queue, calls: seq<(bytes, bool)>)
    requires q.open ==> q.current >= threshold
    ensures var e, os := After(threshold, q, calls), Outcomes(threshold, q, calls);
            && e.current == q.current + AcceptedBytes(calls, os)
            && e.spooled == q.spooled + CountOf(os, Accepted)
            && e.sequence == q.sequence + CountOf(os, Accepted) + CountOf(os, Failed)
            && (e.open <==> q.open || CountOf(os, Dropped) > 0)
    decreases |calls|
  {
    if calls != [] {
      SequentialBooks(threshold, Spooled(threshold, q, calls[0].0, calls[0].1).0, calls[1..]);
    }
  }

  /** A sequential run leaves the files of smaller numbers alone. */
  lemma {:induction false} OlderFilesKept(threshold: nat, q: Queue, calls: seq<(bytes, bool)>, n: nat)
    requires n < q.sequence && n in q.files
    ensures n in After(threshold, q, calls).files && After(threshold, q, calls).files[n] == q.files[n]
    decreases |calls|
  {
    if calls != [] {
      OlderFilesKept(threshold, Spooled(threshold, q, calls[0].0, calls[0].1).0, calls[1..], n);
    }
  }

  /** Every accepted payload is on disk at the end, under the number of file writes
      tried before it. */
  lemma {:induction false} AcceptedIsStored(threshold: nat, q: Queue, calls: seq<(bytes, bool)>, i: nat)
    requires i < |calls| && Outcomes(threshold, q, calls)[i] == Accepted
    ensures var e, os := After(threshold, q, calls), Outcomes(threshold, q, calls)[..i];
            var n := q.sequence + CountOf(os, Accepted) + CountOf(os, Failed);
            n in e.files && e.files[n] == calls[i].0
    decreases |calls|
  {
    var next := Spooled(threshold, q, calls[0].0, calls[0].1).0;
    if i == 0 {
      OlderFilesKept(threshold, next, calls[1..], q.sequence);
    } else {
      AcceptedIsStored(threshold, next, calls[1..], i - 1);
      var os := Outcomes(threshold, q, calls);
      assert os[..i][1..] == os[1..][..i - 1];
    }
  }
}
