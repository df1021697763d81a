/** The interface switch between the capture loop (src/main.rs) and the dashboard
    (src/utils/dashboard.rs): each access to a shared cell is one step. */
module CaptureSwitch {

  /** Where the loop stands; each state names what it does next. */
  datatype Loop =
    | Outside          // load the enable flag
    | Enabled          // read the requested interface (or clear the flag, if that comes first)
    | Reading(iface: string) // clear the restart flag
    | Clearing         // read the requested interface, the flag being cleared already
    | Capturing(iface: string, phase: Phase)

  datatype Phase =
    | Opening          // open the capture device
    | Checking         // load the enable flag before a packet
    | Switching        // load the restart flag before a packet

  /** `pending` holds the `set_interface` calls between their two stores, and for
      each whether its write came after the loop's last read; `completed` says
      that such a call made both stores since that read. */
  datatype State = State(
    requested: string,
    restart: bool,
    enabled: bool,
    loop: Loop,
    pending: map<nat, bool>,
    completed: bool)

  /** The scheduler lets a setter, the enable toggle or the loop make its next
      access; `deviceOk` says whether the capture device can be opened. */
  datatype Move =
    | SetterWrite(call: nat, iface: string)
    | SetterStore(call: nat)
    | Toggle(on: bool)
    | Go(deviceOk: bool)

  /** One access of the loop.  `clearFirst` is false in the source: the loop reads
      the requested interface and then clears the flag. */
  function Access(clearFirst: bool, s: State, deviceOk: bool): State {
    match s.loop
    case Outside => if s.enabled then s.(loop := Enabled) else s
    case Enabled =>
      if clearFirst then s.(restart := false, loop := Clearing)
      else s.(loop := Reading(s.requested), pending := map c | c in s.pending :: false, completed := false)
    case Reading(iface) => s.(restart := false, loop := Capturing(iface, Opening))
    case Clearing => s.(loop := Capturing(s.requested, Opening))
    case Capturing(iface, Opening) => s.(loop := if deviceOk then Capturing(iface, Checking) else Outside)
    case Capturing(iface, Checking) => s.(loop := if s.enabled then Capturing(iface, Switching) else Outside)
    case Capturing(iface, Switching) => s.(loop := if s.restart then Outside else Capturing(iface, Checking))
  }

  /** One step; an impossible move changes nothing. */
  function Step(clearFirst: bool, s: State, m: Move): State {
    match m
    case SetterWrite(c, i) =>
      if c in s.pending then s else s.(requested := i, pending := s.pending[c := true])
    case SetterStore(c) =>
      if c !in s.pending then s
      else s.(restart := true, pending := s.pending - {c}, completed := s.completed || s.pending[c])
    case Toggle(on) => s.(enabled := on)
    case Go(deviceOk) => Access(clearFirst, s, deviceOk)
  }

  function Execute(clearFirst: bool, s: State, schedule: seq<Move>): State
    decreases |schedule|
  {
    if schedule == [] then s else Execute(clearFirst, Step(clearFirst, s, schedule[0]), schedule[1..])
  }

  function Initial(iface: string): State {
    State(iface, false, true, Outside, map[], false)
  }

  /** A loop that captures on the wrong interface is going to hear of it. */
  predicate Attentive(s: State) {
    s.loop.Capturing? && s.loop.iface != s.requested ==> s.restart || s.pending != map[]
  }

  /** The loop is about to clear the flag although the interface it read is out of
      date and no setter is left to raise the flag again. */
  predicate AboutToMiss(s: State) {
    s.loop.Reading? && s.loop.iface != s.requested && s.pending == map[]
  }

  /** Attentive in every state of the run. */
  predicate AlwaysAttentive(clearFirst: bool, s: State, schedule: seq<Move>)
    decreases |schedule|
  {
    Attentive(s) &&
    (schedule != [] ==> AlwaysAttentive(clearFirst, Step(clearFirst, s, schedule[0]), schedule[1..]))
  }

  /** No clear happens in a state about to miss an update. */
  predicate NeverMisses(clearFirst: bool, s: State, schedule: seq<Move>)
    decreases |schedule|
  {
    schedule != [] ==>
      && !(schedule[0].Go? && AboutToMiss(s))
      && NeverMisses(clearFirst, Step(clearFirst, s, schedule[0]), schedule[1..])
  }

  /** No `set_interface` call makes both stores between the loop's read and its
      clear. */
  predicate NoCallInWindow(clearFirst: bool, s: State, schedule: seq<Move>)
    decreases |schedule|
  {
    schedule != [] ==>
      && !(schedule[0].Go? && s.loop.Reading? && s.completed)
      && NoCallInWindow(clearFirst, Step(clearFirst, s, schedule[0]), schedule[1..])
  }

  /** An out-of-date read was overtaken by a call that is pending or completed. */
  predicate ReadTracked(s: State) {
    s.loop.Reading? && s.loop.iface != s.requested ==>
      s.completed || exists c :: c in s.pending && s.pending[c]
  }

  lemma StepTracks(clearFirst: bool, s: State, m: Move)
    requires ReadTracked(s)
    ensures ReadTracked(Step(clearFirst, s, m))
  {
    var s' := Step(clearFirst, s, m);
    if s'.loop.Reading? && s'.loop.iface != s'.requested && !s'.completed {
      if m.SetterWrite? {
        if m.call !in s.pending {
          assert m.call in s'.pending && s'.pending[m.call];
        }
      } else if m.SetterStore? {
        var c :| c in s.pending && s.pending[c];
        assert c in s'.pending && s'.pending[c];
      }
    }
  }

  lemma StepAttentive(clearFirst: bool, s: State, m: Move)
    requires Attentive(s)
    ensures Attentive(Step(clearFirst, s, m)) <==> !(m.Go? && AboutToMiss(s))
  {
    var s' := Step(clearFirst, s, m);
    if m.SetterWrite? && m.call !in s.pending {
      assert m.call in s'.pending;
    }
  }

  /** Exactly when the handshake works: every state of a run is attentive if and
      only if the flag is never cleared over an out-of-date read with no setter
      between its stores. */
  lemma {:induction false} AttentiveIff(clearFirst: bool, s: State, schedule: seq<Move>)
    requires Attentive(s)
    ensures AlwaysAttentive(clearFirst, s, schedule) <==> NeverMisses(clearFirst, s, schedule)
    decreases |schedule|
  {
    if schedule != [] {
      StepAttentive(clearFirst, s, schedule[0]);
      var s' := Step(clearFirst, s, schedule[0]);
      if Attentive(s') {
        AttentiveIff(clearFirst, s', schedule[1..]);
      }
    }
  }

  /** A run misses an update only if a whole `set_interface` call falls between
      the loop's read and its clear. */
  lemma {:induction false} QuietWindowNeverMisses(clearFirst: bool, s: State, schedule: seq<Move>)
    requires ReadTracked(s) && NoCallInWindow(clearFirst, s, schedule)
    ensures NeverMisses(clearFirst, s, schedule)
    decreases |schedule|
  {
    if schedule != [] {
      StepTracks(clearFirst, s, schedule[0]);
      QuietWindowNeverMisses(clearFirst, Step(clearFirst, s, schedule[0]), schedule[1..]);
    }
  }

  /** In every interleaving without such a call the loop is always attentive. */
  lemma QuietWindowAttentive(iface: string, schedule: seq<Move>)
    requires NoCallInWindow(false, Initial(iface), schedule)
    ensures AlwaysAttentive(false, Initial(iface), schedule)
  {
    QuietWindowNeverMisses(false, Initial(iface), schedule);
    AttentiveIff(false, Initial(iface), schedule);
  }

  lemma {:induction false} ClearFirstNeverReads(s: State, schedule: seq<Move>)
    requires !s.loop.Reading?
    ensures NeverMisses(true, s, schedule)
    decreases |schedule|
  {
    if schedule != [] {
      ClearFirstNeverReads(Step(true, s, schedule[0]), schedule[1..]);
    }
  }

  /** With the clear placed before the read, every interleaving is attentive. */
  lemma ClearFirstAttentive(iface: string, schedule: seq<Move>)
    ensures AlwaysAttentive(true, Initial(iface), schedule)
  {
    ClearFirstNeverReads(Initial(iface), schedule);
    AttentiveIff(true, Initial(iface), schedule);
  }

  /** A loop that missed an update. */
  predicate Stuck(s: State) {
    s.loop.Capturing? && !Attentive(s)
  }

  /** It stays so until another `set_interface`, a pause or a device failure. */
  lemma {:induction false} StuckStays(s: State, schedule: seq<Move>)
    requires Stuck(s) && s.enabled
    requires forall m :: m in schedule ==> !m.SetterWrite? && !m.Toggle? && (m.Go? ==> m.deviceOk)
    ensures var e := Execute(false, s, schedule);
            Stuck(e) && e.loop.iface == s.loop.iface && e.requested == s.requested
    decreases |schedule|
  {
    if schedule != [] {
      assert schedule[0] in schedule;
      StuckStays(Step(false, s, schedule[0]), schedule[1..]);
    }
  }

  lemma ExecuteOne(clearFirst: bool, s: State, m: Move, schedule: seq<Move>)
    ensures Execute(clearFirst, s, [m] + schedule) == Execute(clearFirst, Step(clearFirst, s, m), schedule)
  {
    assert ([m] + schedule)[1..] == schedule;
  }

  /** One call of `set_interface` between the read and the clear is missed. */
  lemma MissedSwitchWitness(a: string, b: string)
    requires a != b
    ensures Stuck(Execute(false, Initial(a), [Go(true), Go(true), SetterWrite(0, b), SetterStore(0), Go(true)]))
  {
    var s0 := Initial(a);
    var s1 := Step(false, s0, Go(true));
    var s2 := Step(false, s1, Go(true));
    var s3 := Step(false, s2, SetterWrite(0, b));
    var s4 := Step(false, s3, SetterStore(0));
    ExecuteOne(false, s0, Go(true), [Go(true), SetterWrite(0, b), SetterStore(0), Go(true)]);
    ExecuteOne(false, s1, Go(true), [SetterWrite(0, b), SetterStore(0), Go(true)]);
    ExecuteOne(false, s2, SetterWrite(0, b), [SetterStore(0), Go(true)]);
    ExecuteOne(false, s3, SetterStore(0), [Go(true)]);
    ExecuteOne(false, s4, Go(true), []);
    assert s4.pending == map[];
    assert [Go(true)] + [] == [Go(true)];
  }

  /** The loop makes `n` accesses with nothing in between, and its device opens. */
  function Gos(n: nat): seq<Move> {
    seq(n, _ => Go(true))
  }

  lemma GosNext(clearFirst: bool, s: State, n: nat)
    requires n > 0
    ensures Execute(clearFirst, s, Gos(n)) == Execute(clearFirst, Access(clearFirst, s, true), Gos(n - 1))
  {
    assert Gos(n)[1..] == Gos(n - 1);
  }

  /** Accesses left until the loop has reacted to the restart flag. */
  function Distance(s: State): nat {
    match s.loop
    case Outside => 3
    case Enabled => 2
    case Reading(_) => 1
    case Clearing => 1
    case Capturing(iface, phase) =>
      if !s.restart then 0
      else if phase == Opening then 6 else if phase == Checking then 5 else 4
  }

  /** Where the loop ends up capturing: on what it read, unless it is going to read
      again. */
  function Settles(s: State): string {
    match s.loop
    case Reading(iface) => iface
    case Capturing(iface, _) => if s.restart then s.requested else iface
    case _ => s.requested
  }

  /** Left alone while enabled, the loop is capturing where it settles, with the
      flag clear, within six accesses, and stays there. */
  lemma {:induction false} LoopSettles(clearFirst: bool, s: State, n: nat)
    requires s.enabled && n >= Distance(s)
    requires s.loop.Clearing? ==> !s.restart
    ensures var e := Execute(clearFirst, s, Gos(n));
            && e.loop.Capturing? && e.loop.iface == Settles(s) && !e.restart
            && e.requested == s.requested && e.enabled
    decreases n
  {
    if n > 0 {
      GosNext(clearFirst, s, n);
      LoopSettles(clearFirst, Access(clearFirst, s, true), n - 1);
    }
  }

  /** Exactly when a requested interface is going to be captured: with the loop
      enabled and no setter left between its stores, six accesses or more put the
      loop on the requested interface, if and only if the state is attentive and
      not about to miss. */
  lemma SwitchHappensIff(clearFirst: bool, s: State, n: nat)
    requires s.enabled && s.pending == map[] && n >= 6
    requires s.loop.Clearing? ==> !s.restart
    ensures var e := Execute(clearFirst, s, Gos(n));
            && e.loop.Capturing?
            && (e.loop.iface == s.requested <==> Attentive(s) && !AboutToMiss(s))
  {
    LoopSettles(clearFirst, s, n);
  }

  /** The flag is acted on: a loop that captures anywhere, with the flag set, is
      capturing the requested interface after six accesses; with the flag clear it
      stays where it is. */
  lemma RestartActedOn(clearFirst: bool, s: State, n: nat)
    requires s.enabled && s.loop.Capturing?
    ensures var e := Execute(clearFirst, s, Gos(n));
            && (s.restart && n >= 6 ==> e.loop.Capturing? && e.loop.iface == s.requested && !e.restart)
            && (!s.restart ==> e.loop.Capturing? && e.loop.iface == s.loop.iface && !e.restart)
  {
    if n >= Distance(s) {
      LoopSettles(clearFirst, s, n);
    }
  }

  /** One whole `set_interface` call moves a capturing loop to its interface. */
  lemma CallSwitches(clearFirst: bool, s: State, call: nat, iface: string, n: nat)
    requires s.enabled && s.loop.Capturing? && call !in s.pending && n >= 6
    ensures var e := Execute(clearFirst, s, [SetterWrite(call, iface), SetterStore(call)] + Gos(n));
            e.loop.Capturing? && e.loop.iface == iface && !e.restart
  {
    var s1 := Step(clearFirst, s, SetterWrite(call, iface));
    var s2 := Step(clearFirst, s1, SetterStore(call));
    assert [SetterWrite(call, iface), SetterStore(call)] + Gos(n)
        == [SetterWrite(call, iface)] + ([SetterStore(call)] + Gos(n));
    ExecuteOne(clearFirst, s, SetterWrite(call, iface), [SetterStore(call)] + Gos(n));
    ExecuteOne(clearFirst, s1, SetterStore(call), Gos(n));
    LoopSettles(clearFirst, s2, n);
  }

  lemma {:induction false} AttentiveAtEnd(clearFirst: bool, s: State, schedule: seq<Move>)
    requires AlwaysAttentive(clearFirst, s, schedule)
    ensures Attentive(Execute(clearFirst, s, schedule))
    decreases |schedule|
  {
    if schedule != [] {
      AttentiveAtEnd(clearFirst, Step(clearFirst, s, schedule[0]), schedule[1..]);
    }
  }

  /** A requested switch does happen: after any run without a whole call between a
      read and its clear, once no call is between its stores, a loop that captures
      while enabled is on the requested interface after six more accesses. */
  lemma RequestedSwitchHappens(iface: string, schedule: seq<Move>, n: nat)
    requires NoCallInWindow(false, Initial(iface), schedule) && n >= 6
    ensures var s := Execute(false, Initial(iface), schedule);
            s.loop.Capturing? && s.enabled && s.pending == map[] ==>
              var e := Execute(false, s, Gos(n));
              e.loop.Capturing? && e.loop.iface == s.requested && !e.restart
  {
    var s := Execute(false, Initial(iface), schedule);
    QuietWindowAttentive(iface, schedule);
    AttentiveAtEnd(false, Initial(iface), schedule);
    if s.loop.Capturing? && s.enabled {
      LoopSettles(false, s, n);
    }
  }

  /** Accesses left until a paused loop is out. */
  function PauseDistance(l: Loop): nat {
    match l
    case Outside => 0
    case Enabled => 4
    case Reading(_) => 3
    case Clearing => 3
    case Capturing(_, phase) => if phase == Checking then 1 else 2
  }

  /** A pause stops the loop within four accesses wherever it stands, two when it
      captures, and it stays stopped. */
  lemma {:induction false} PausedStops(clearFirst: bool, s: State, n: nat)
    requires !s.enabled && n >= PauseDistance(s.loop)
    ensures Execute(clearFirst, s, Gos(n)).loop == Outside
    decreases n
  {
    if n > 0 {
      GosNext(clearFirst, s, n);
      PausedStops(clearFirst, Access(clearFirst, s, true), n - 1);
    }
  }

  /** The toggle stops and restarts the loop, and a restarted loop captures what is
      requested. */
  lemma ToggleObeyed(clearFirst: bool, s: State, n: nat)
    requires n >= 4
    ensures Execute(clearFirst, s, [Toggle(false)] + Gos(n)).loop == Outside
    ensures s.loop == Outside ==>
              var e := Execute(clearFirst, s, [Toggle(true)] + Gos(n));
              e.loop.Capturing? && e.loop.iface == s.requested
  {
    ExecuteOne(clearFirst, s, Toggle(false), Gos(n));
    PausedStops(clearFirst, Step(clearFirst, s, Toggle(false)), n);
    if s.loop == Outside {
      ExecuteOne(clearFirst, s, Toggle(true), Gos(n));
      LoopSettles(clearFirst, Step(clearFirst, s, Toggle(true)), n);
    }
  }

  /** A device that cannot be opened makes the loop read the request again. */
  lemma FailureReadsAgain(clearFirst: bool, s: State, n: nat)
    requires s.enabled && s.loop.Capturing? && s.loop.phase == Opening && n >= 3
    ensures var e := Execute(clearFirst, s, [Go(false)] + Gos(n));
            e.loop.Capturing? && e.loop.iface == s.requested
  {
    ExecuteOne(clearFirst, s, Go(false), Gos(n));
    LoopSettles(clearFirst, Step(clearFirst, s, Go(false)), n);
  }
}
