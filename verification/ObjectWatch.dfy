/**
 The re-opening watch around an underlying watch: which session is live, when the watch counts as failing, and
 which events reach its reader.
 */
module ObjectWatch {
  import opened Sequences
  import opened Text

  datatype EventType = Added | Modified | Deleted | Bookmark | Error

  datatype Event = Event(kind: EventType, object: int)

  /** What the select statement of the loop can pick, or the reader does. */
  datatype Input =
    | Arrives(e: Event)            // the live session delivers an event
    | Expires(createOk: bool)      // the live session's channel is closed; creating a new one works or not
    | TimerFires(createOk: bool)   // the reopen timer, if armed
    | ReaderTakes                  // the reader receives one buffered event

  /**
   Fields of the watch, and the history needed to speak about it: sessions are numbered as they are created,
   `live` are those not stopped yet, `received` and `delivered` list their events so far, `taken` what the reader got.
   */
  datatype State = State(
    wif: Option<nat>, failing: bool, timer: bool, results: Option<seq<Event>>,
    live: set<nat>, received: seq<seq<Event>>, delivered: seq<seq<Event>>, taken: seq<Event>)

  // ---- One step, as a function ----

  function Stopped(s: State): State {
    if s.wif.None? then s else s.(wif := None, live := s.live - {s.wif.value})
  }

  function Opened(s: State, createOk: bool): State {
    var t := Stopped(s);
    if !createOk then t
    else
      t.(wif := Some(|t.received|), failing := false, live := t.live + {|t.received|},
         received := t.received + [[]], delivered := t.delivered + [[]])
  }

  function Scheduled(s: State): State {
    if s.results.Some? then s else s.(timer := true)
  }

  function Reopened(s: State, createOk: bool): State {
    if createOk then Opened(s, true) else Scheduled(Opened(s, false))
  }

  /** Puts the latest event of session i into the buffer if it has room. */
  function Passed(s: State, i: nat, e: Event, capacity: nat): State
    requires i < |s.delivered|
  {
    if s.results.Some? && |s.results.value| < capacity then
      s.(results := Some(s.results.value + [e]), delivered := s.delivered[i := s.delivered[i] + [e]])
    else Scheduled(Stopped(s.(failing := true)))
  }

  function Handled(s: State, e: Event, capacity: nat): State
    requires s.wif.Some? && s.wif.value < |s.received| && |s.delivered| == |s.received|
  {
    var i := s.wif.value;
    var got := s.(received := s.received[i := s.received[i] + [e]]);
    Passed(if e.kind == Error then Stopped(got.(failing := true)) else got, i, e, capacity)
  }

  function Next(s: State, input: Input, capacity: nat): State {
    match input
    case Arrives(e) =>
      if s.wif.Some? && s.wif.value < |s.received| && |s.delivered| == |s.received| then Handled(s, e, capacity) else s
    case Expires(createOk) => if s.wif.Some? then Reopened(s, createOk) else s
    case TimerFires(createOk) => if s.timer then Reopened(s.(timer := false), createOk) else s
    case ReaderTakes =>
      if s.results.Some? && s.results.value != [] then
        s.(results := Some(s.results.value[1..]), taken := s.taken + [s.results.value[0]])
      else s
  }

  /** The watch as its constructor hands it out: the first session is open. */
  function Start(): State {
    Opened(State(None, false, false, Some([]), {}, [], [], []), true)
  }

  function Run(s: State, inputs: seq<Input>, capacity: nat): State {
    if inputs == [] then s else Next(Run(s, inputs[..|inputs| - 1], capacity), inputs[|inputs| - 1], capacity)
  }

  // ---- Safety of every run ----

  /** Everything a session produced was passed on, except possibly the last event of a session that is over. */
  ghost predicate NoGap(s: State, i: nat)
    requires i < |s.received| && |s.delivered| == |s.received|
  {
    || s.delivered[i] == s.received[i]
    || (i !in s.live && s.received[i] != [] && s.delivered[i] == s.received[i][..|s.received[i]| - 1])
  }

  ghost predicate Good(s: State, capacity: nat) {
    && s.live == (if s.wif.Some? then {s.wif.value} else {})
    && (s.failing ==> s.wif.None?)
    && (s.wif.Some? ==> s.wif.value == |s.received| - 1)
    && |s.delivered| == |s.received|
    && (forall i :: 0 <= i < |s.received| ==> NoGap(s, i))
    && s.results.Some? && |s.results.value| <= capacity
    && s.taken + s.results.value == Concat(s.delivered)
  }

  lemma {:induction false} ConcatExtendsLast(parts: seq<seq<Event>>, e: Event)
    requires parts != []
    ensures Concat(parts[|parts| - 1 := parts[|parts| - 1] + [e]]) == Concat(parts) + [e]
  {
    var longer := parts[|parts| - 1 := parts[|parts| - 1] + [e]];
    assert longer[..|parts| - 1] == parts[..|parts| - 1];
  }

  lemma {:induction false} OpenedIsGood(s: State, createOk: bool, capacity: nat)
    requires Good(s, capacity)
    ensures Good(Reopened(s, createOk), capacity)
  {
    var t := Reopened(s, createOk);
    if createOk {
      assert t.delivered[..|s.delivered|] == s.delivered;
      assert s.live - (if s.wif.Some? then {s.wif.value} else {}) == {};
      forall i | 0 <= i < |t.received|
        ensures NoGap(t, i)
      {
        assert i < |s.received| ==> NoGap(s, i);
      }
    } else {
      forall i | 0 <= i < |t.received|
        ensures NoGap(t, i)
      {
        assert NoGap(s, i);
      }
    }
  }

  lemma {:induction false} HandledKeepsOthers(s: State, e: Event, capacity: nat, i: nat)
    requires Good(s, capacity) && s.wif.Some? && i < |s.received|
    ensures NoGap(Handled(s, e, capacity), i)
  {
    assert NoGap(s, i);
  }

  lemma {:induction false} HandledIsGood(s: State, e: Event, capacity: nat)
    requires Good(s, capacity) && s.wif.Some?
    ensures Good(Handled(s, e, capacity), capacity)
  {
    ConcatExtendsLast(s.delivered, e);
    forall i | 0 <= i < |s.received|
      ensures NoGap(Handled(s, e, capacity), i)
    {
      HandledKeepsOthers(s, e, capacity, i);
    }
  }

  lemma {:induction false} NextIsGood(s: State, input: Input, capacity: nat)
    requires Good(s, capacity)
    ensures Good(Next(s, input, capacity), capacity)
  {
    match input
    case Arrives(e) =>
      if s.wif.Some? {
        HandledIsGood(s, e, capacity);
      }
    case Expires(createOk) => OpenedIsGood(s, createOk, capacity);
    case TimerFires(createOk) =>
      if s.timer {
        var t := s.(timer := false);
        assert forall i :: 0 <= i < |t.received| ==> NoGap(s, i) ==> NoGap(t, i);
        OpenedIsGood(t, createOk, capacity);
      }
    case ReaderTakes =>
      var t := Next(s, input, capacity);
      forall i | 0 <= i < |t.received|
        ensures NoGap(t, i)
      {
        assert NoGap(s, i);
      }
  }

  /**
   In every reachable state at most one session is live, and it is the one the watch holds; no event is lost but the
   last of an ended session.
   */
  lemma {:induction false} RunIsGood(inputs: seq<Input>, capacity: nat)
    ensures Good(Run(Start(), inputs, capacity), capacity)
  {
    if inputs != [] {
      RunIsGood(inputs[..|inputs| - 1], capacity);
      NextIsGood(Run(Start(), inputs[..|inputs| - 1], capacity), inputs[|inputs| - 1], capacity);
    } else {
      var none: seq<seq<Event>> := [[]];
      assert none[..0] == [] && Concat(none) == [];
    }
  }

  // ---- The reopen timer is never armed ----

  /**
   The loop keeps a session exactly when it had one and the input is harmless: no error event, room in the buffer,
   creation works.
   */
  ghost predicate Harmless(s: State, input: Input, capacity: nat) {
    match input
    case Arrives(e) => e.kind != Error && s.results.Some? && |s.results.value| < capacity
    case Expires(createOk) => createOk
    case _ => true
  }

  lemma {:induction false} StaysOpenExactly(s: State, input: Input, capacity: nat)
    requires Good(s, capacity) && !s.timer
    ensures !Next(s, input, capacity).timer
    ensures Next(s, input, capacity).wif.Some? <==> s.wif.Some? && Harmless(s, input, capacity)
  {
  }

  lemma {:induction false} TimerNeverArmed(inputs: seq<Input>, capacity: nat)
    ensures !Run(Start(), inputs, capacity).timer
  {
    if inputs != [] {
      TimerNeverArmed(inputs[..|inputs| - 1], capacity);
      RunIsGood(inputs[..|inputs| - 1], capacity);
      StaysOpenExactly(Run(Start(), inputs[..|inputs| - 1], capacity), inputs[|inputs| - 1], capacity);
    }
  }

  /** The i-th input was harmless where it came. */
  ghost predicate HarmlessAt(inputs: seq<Input>, i: nat, capacity: nat)
    requires i < |inputs|
  {
    Harmless(Run(Start(), inputs[..i], capacity), inputs[i], capacity)
  }

  ghost predicate AllHarmless(inputs: seq<Input>, capacity: nat) {
    forall i :: 0 <= i < |inputs| ==> HarmlessAt(inputs, i, capacity)
  }

  lemma {:induction false} HarmlessInPrefix(inputs: seq<Input>, i: nat, capacity: nat)
    requires i < |inputs| - 1
    ensures HarmlessAt(inputs, i, capacity) <==> HarmlessAt(inputs[..|inputs| - 1], i, capacity)
  {
    assert inputs[..|inputs| - 1][..i] == inputs[..i];
  }

  lemma {:induction false} AllHarmlessStep(inputs: seq<Input>, capacity: nat)
    requires inputs != []
    ensures AllHarmless(inputs, capacity)
            <==> AllHarmless(inputs[..|inputs| - 1], capacity) && HarmlessAt(inputs, |inputs| - 1, capacity)
  {
    var init := inputs[..|inputs| - 1];
    if AllHarmless(inputs, capacity) {
      forall i | 0 <= i < |init|
        ensures HarmlessAt(init, i, capacity)
      {
        HarmlessInPrefix(inputs, i, capacity);
      }
    }
    if AllHarmless(init, capacity) && HarmlessAt(inputs, |inputs| - 1, capacity) {
      forall i | 0 <= i < |inputs|
        ensures HarmlessAt(inputs, i, capacity)
      {
        if i < |init| {
          HarmlessInPrefix(inputs, i, capacity);
        }
      }
    }
  }

  /** After any run the watch has a session exactly when every input was harmless where it came. */
  lemma {:induction false} StaysOpenAlongRuns(inputs: seq<Input>, capacity: nat)
    ensures Run(Start(), inputs, capacity).wif.Some? <==> AllHarmless(inputs, capacity)
  {
    if inputs != [] {
      var init := inputs[..|inputs| - 1];
      StaysOpenAlongRuns(init, capacity);
      AllHarmlessStep(inputs, capacity);
      RunIsGood(init, capacity);
      TimerNeverArmed(init, capacity);
      StaysOpenExactly(Run(Start(), init, capacity), inputs[|inputs| - 1], capacity);
    }
  }

  /** Scheduling does nothing while there is a result channel, so a watch that lost its session never delivers again. */
  lemma {:induction false} NeverReopens(inputs: seq<Input>, more: seq<Input>, capacity: nat)
    requires Run(Start(), inputs, capacity).wif.None?
    ensures var lost := Run(Start(), inputs, capacity);
            var later := Run(lost, more, capacity);
            later.wif.None? && !later.timer && later.received == lost.received && later.delivered == lost.delivered
  {
    TimerNeverArmed(inputs, capacity);
    if more != [] {
      NeverReopens(inputs, more[..|more| - 1], capacity);
    }
  }

  /** One error event, and nothing that arrives later is received. */
  lemma {:induction false} OneErrorIsFinal(e: Event, more: seq<Input>, capacity: nat)
    requires e.kind == Error
    ensures var lost := Run(Start(), [Arrives(e)], capacity);
            lost.wif.None? && Run(lost, more, capacity).wif.None? && Run(lost, more, capacity).received == lost.received
  {
    var inputs := [Arrives(e)];
    assert inputs[..0] == [];
    assert Run(Start(), inputs, capacity) == Next(Start(), inputs[0], capacity);
    NeverReopens(inputs, more, capacity);
  }

  // ---- What each round does, and what the reader gets ----

  /** The watch as handed out: session 0 is open and empty, nothing is buffered or taken. */
  lemma {:induction false} StartIsEmpty()
    ensures Start() == State(Some(0), false, false, Some([]), {0}, [[]], [[]], [])
  {
    var none: set<nat> := {};
    assert none + {0} == {0};
  }

  /**
   An event of the open session is always received by the latest session; it is passed on exactly when the buffer has
   room, and the session survives exactly when it is passed on and no error.
   */
  lemma {:induction false} Arrival(s: State, e: Event, capacity: nat)
    requires Good(s, capacity) && s.wif.Some?
    ensures var t := Next(s, Arrives(e), capacity);
            var latest := |s.received| - 1;
            var room := |s.results.value| < capacity;
            var kept := room && e.kind != Error;
            && t.received == s.received[latest := s.received[latest] + [e]]
            && t.delivered == (if room then s.delivered[latest := s.delivered[latest] + [e]] else s.delivered)
            && t.results == Some(if room then s.results.value + [e] else s.results.value)
            && t.wif == (if kept then s.wif else None)
            && t.live == (if kept then {latest} else {})
            && t.failing == !kept
            && t.taken == s.taken && t.timer == s.timer
  {
  }

  /** A session that expires is replaced by a new, empty one or by none; the buffer stays. */
  lemma {:induction false} Expiry(s: State, createOk: bool, capacity: nat)
    requires Good(s, capacity) && s.wif.Some?
    ensures var t := Next(s, Expires(createOk), capacity);
            && t.received == (if createOk then s.received + [[]] else s.received)
            && t.delivered == (if createOk then s.delivered + [[]] else s.delivered)
            && t.wif == (if createOk then Some(|s.received|) else None)
            && t.live == (if createOk then {|s.received|} else {})
            && !t.failing
            && t.results == s.results && t.taken == s.taken && t.timer == s.timer
  {
    assert s.live - {s.wif.value} == {};
    assert s.live - {s.wif.value} + {|s.received|} == {|s.received|};
  }

  /** The reader moves the oldest buffered event to what it took, and nothing else changes. */
  lemma {:induction false} Reading(s: State, capacity: nat)
    requires Good(s, capacity)
    ensures var t := Next(s, ReaderTakes, capacity);
            && s.taken <= t.taken
            && t.taken + t.results.value == s.taken + s.results.value
            && |t.taken| == |s.taken| + (if s.results.value == [] then 0 else 1)
            && t == s.(taken := t.taken, results := t.results)
  {
  }

  /** Without an open session there is nothing to hear, and an unarmed timer does not fire. */
  lemma {:induction false} NothingHappens(s: State, input: Input, capacity: nat)
    requires !s.timer && (input.TimerFires? || (s.wif.None? && !input.ReaderTakes?))
    ensures Next(s, input, capacity) == s
  {
  }

  function EventIn(input: Input): seq<Event> {
    if input.Arrives? then [input.e] else []
  }

  /** The events of all arrivals, in order. */
  function Events(inputs: seq<Input>): seq<Event> {
    if inputs == [] then [] else Events(inputs[..|inputs| - 1]) + EventIn(inputs[|inputs| - 1])
  }

  /** The events that arrived while a session was open, in order. */
  ghost function Arrived(inputs: seq<Input>, capacity: nat): seq<Event> {
    if inputs == [] then []
    else
      var init := inputs[..|inputs| - 1];
      Arrived(init, capacity)
      + if Run(Start(), init, capacity).wif.Some? then EventIn(inputs[|inputs| - 1]) else []
  }

  lemma {:induction false} ReceivedStep(s: State, input: Input, capacity: nat)
    requires Good(s, capacity) && !s.timer
    ensures Concat(Next(s, input, capacity).received)
            == Concat(s.received) + if s.wif.Some? then EventIn(input) else []
  {
    match input
    case Arrives(e) =>
      if s.wif.Some? {
        Arrival(s, e, capacity);
        ConcatExtendsLast(s.received, e);
      }
    case Expires(createOk) =>
      if s.wif.Some? {
        Expiry(s, createOk, capacity);
        assert (s.received + [[]])[..|s.received|] == s.received;
      }
    case _ =>
  }

  /** What the sessions received is exactly what arrived while one was open, in order. */
  lemma {:induction false} ReceivedIsArrived(inputs: seq<Input>, capacity: nat)
    ensures Concat(Run(Start(), inputs, capacity).received) == Arrived(inputs, capacity)
  {
    if inputs != [] {
      var init := inputs[..|inputs| - 1];
      ReceivedIsArrived(init, capacity);
      RunIsGood(init, capacity);
      TimerNeverArmed(init, capacity);
      ReceivedStep(Run(Start(), init, capacity), inputs[|inputs| - 1], capacity);
    } else {
      StartIsEmpty();
      var none: seq<seq<Event>> := [[]];
      assert none[..0] == [] && Concat(none) == [];
    }
  }

  /** What was passed on so far: what the reader took, then what is buffered. */
  ghost function Sent(inputs: seq<Input>, capacity: nat): seq<Event> {
    var s := Run(Start(), inputs, capacity);
    if s.results.None? then [] else s.taken + s.results.value
  }

  ghost predicate Full(inputs: seq<Input>, capacity: nat) {
    var s := Run(Start(), inputs, capacity);
    s.results.Some? && |s.results.value| >= capacity
  }

  lemma {:induction false} SentStep(s: State, input: Input, capacity: nat)
    requires Good(s, capacity) && !s.timer
    ensures var t := Next(s, input, capacity);
            && t.results.Some?
            && t.taken + t.results.value
               == s.taken + s.results.value
                  + if s.wif.Some? && |s.results.value| < capacity then EventIn(input) else []
  {
    match input
    case Arrives(e) =>
      if s.wif.Some? {
        Arrival(s, e, capacity);
      }
    case Expires(createOk) =>
      if s.wif.Some? {
        Expiry(s, createOk, capacity);
      }
    case _ => Reading(s, capacity);
  }

  /** While every input is harmless nothing is lost: taken and buffered events are all that arrived, in order. */
  lemma {:induction false} NothingIsLost(inputs: seq<Input>, capacity: nat)
    requires AllHarmless(inputs, capacity)
    ensures Sent(inputs, capacity) == Events(inputs) == Arrived(inputs, capacity)
  {
    if inputs != [] {
      var init := inputs[..|inputs| - 1];
      AllHarmlessStep(inputs, capacity);
      NothingIsLost(init, capacity);
      RunIsGood(init, capacity);
      TimerNeverArmed(init, capacity);
      StaysOpenAlongRuns(init, capacity);
      SentStep(Run(Start(), init, capacity), inputs[|inputs| - 1], capacity);
    } else {
      StartIsEmpty();
    }
  }

  lemma {:induction false} LostStep(s: State, input: Input, capacity: nat)
    requires Good(s, capacity) && !s.timer && s.wif.Some? && !Harmless(s, input, capacity)
    ensures var t := Next(s, input, capacity);
            && t.wif.None? && t.failing == input.Arrives?
            && t.taken + t.results.value
               == s.taken + s.results.value + if |s.results.value| < capacity then EventIn(input) else []
  {
    StaysOpenExactly(s, input, capacity);
    SentStep(s, input, capacity);
    match input
    case Arrives(e) => Arrival(s, e, capacity);
    case Expires(createOk) => Expiry(s, createOk, capacity);
  }

  lemma {:induction false} LostStaysLost(s: State, input: Input, capacity: nat)
    requires Good(s, capacity) && !s.timer && s.wif.None?
    ensures var t := Next(s, input, capacity);
            && t.wif.None? && t.failing == s.failing && t.received == s.received
            && t.results.Some? && t.taken + t.results.value == s.taken + s.results.value
  {
    SentStep(s, input, capacity);
  }

  /** The first harmful input of a run is the h-th. */
  ghost predicate FirstHarm(inputs: seq<Input>, h: nat, capacity: nat) {
    h < |inputs| && AllHarmless(inputs[..h], capacity) && !HarmlessAt(inputs, h, capacity)
  }

  /**
   From the first harmful input on, whatever comes after it, nothing is received or passed on; its own event is passed
   on exactly when the buffer has room, and the watch stays failing exactly when it was an event.
   */
  lemma {:induction false} FirstHarmIsFinal(inputs: seq<Input>, h: nat, capacity: nat)
    requires FirstHarm(inputs, h, capacity)
    ensures Arrived(inputs, capacity) == Events(inputs[..h]) + EventIn(inputs[h])
    ensures Sent(inputs, capacity)
            == Events(inputs[..h]) + if Full(inputs[..h], capacity) then [] else EventIn(inputs[h])
    ensures Run(Start(), inputs, capacity).wif.None?
    ensures Run(Start(), inputs, capacity).failing <==> inputs[h].Arrives?
  {
    var init := inputs[..|inputs| - 1];
    RunIsGood(init, capacity);
    TimerNeverArmed(init, capacity);
    if h == |inputs| - 1 {
      NothingIsLost(init, capacity);
      StaysOpenAlongRuns(init, capacity);
      LostStep(Run(Start(), init, capacity), inputs[h], capacity);
    } else {
      HarmlessInPrefix(inputs, h, capacity);
      assert init[..h] == inputs[..h];
      FirstHarmIsFinal(init, h, capacity);
      LostStaysLost(Run(Start(), init, capacity), inputs[|inputs| - 1], capacity);
    }
  }

  /** Every run that lost its session has a first harmful input. */
  lemma {:induction false} HarmHasAFirst(inputs: seq<Input>, capacity: nat) returns (h: nat)
    requires !AllHarmless(inputs, capacity)
    ensures FirstHarm(inputs, h, capacity)
  {
    var init := inputs[..|inputs| - 1];
    AllHarmlessStep(inputs, capacity);
    if AllHarmless(init, capacity) {
      h := |inputs| - 1;
    } else {
      h := HarmHasAFirst(init, capacity);
      HarmlessInPrefix(inputs, h, capacity);
      assert init[..h] == inputs[..h];
    }
  }

  /** The instance of one modified event and a reader: the reader gets it. */
  lemma {:induction false} ReaderGetsTheEvent(id: int)
    ensures var e := Event(Modified, id);
            Run(Start(), [Arrives(e), ReaderTakes], 4).taken == [e]
  {
    var e := Event(Modified, id);
    var inputs := [Arrives(e), ReaderTakes];
    assert inputs[..1] == [Arrives(e)] && inputs[..1][..0] == [];
    var s := Run(Start(), inputs[..1], 4);
    StartIsEmpty();
    RunIsGood([], 4);
    RunIsGood(inputs[..1], 4);
    Arrival(Start(), e, 4);
    Reading(s, 4);
  }

  // ---- The object and its loop ----

  class Watch {
    const capacity: nat
    var wif: Option<nat>
    var failing: bool
    var reopenC: bool
    var resultC: Option<seq<Event>>
    ghost var live: set<nat>
    ghost var received: seq<seq<Event>>
    ghost var delivered: seq<seq<Event>>
    ghost var taken: seq<Event>
    // the number of sessions created so far
    var created: nat

    ghost function Current(): State
      reads this
    {
      State(wif, failing, reopenC, resultC, live, received, delivered, taken)
    }

    ghost predicate Valid()
      reads this
    {
      Good(Current(), capacity) && created == |received|
    }

    constructor (capacity: nat)
      ensures this.capacity == capacity && Valid() && Current() == Start()
    {
      this.capacity := capacity;
      wif, failing, reopenC, resultC, created := Some(0), false, false, Some([]), 1;
      live, received, delivered, taken := {0}, [[]], [[]], [];
      new;
      RunIsGood([], capacity);
      assert Run(Start(), [], capacity) == Start();
      assert Current() == Start();
    }

    method Stop()
      modifies `wif, `live
      ensures Current() == Stopped(old(Current()))
      ensures wif.None? && live == if old(wif).Some? then old(live) - {old(wif).value} else old(live)
    {
      if wif.Some? {
        live := live - {wif.value};
        wif := None;
      }
    }

    method MarkFailing()
      modifies `failing
      ensures failing
    {
      if !failing {
        failing := true;
      }
    }

    method MarkRunning()
      modifies `failing
      ensures !failing
    {
      if failing {
        failing := false;
      }
    }

    method ScheduleReopen()
      modifies `reopenC
      ensures Current() == Scheduled(old(Current()))
      ensures reopenC == (old(reopenC) || resultC.None?)
    {
      if resultC.Some? {
        return;
      }
      reopenC := true;
    }

    method Open(createOk: bool) returns (ok: bool)
      requires created == |received|
      modifies `wif, `live, `failing, `received, `delivered, `created
      ensures ok == createOk && Current() == Opened(old(Current()), createOk) && created == |received|
      ensures wif == (if ok then Some(old(created)) else None) && failing == (!ok && old(failing))
      ensures received == (if ok then old(received) + [[]] else old(received))
    {
      Stop();
      if !createOk {
        return false;
      }
      wif := Some(created);
      live, received, delivered := live + {created}, received + [[]], delivered + [[]];
      created := created + 1;
      MarkRunning();
      ok := true;
    }

    method Reopen(createOk: bool)
      requires created == |received|
      modifies `wif, `live, `failing, `received, `delivered, `created, `reopenC
      ensures Current() == Reopened(old(Current()), createOk) && created == |received|
    {
      var ok := Open(createOk);
      if !ok {
        ScheduleReopen();
      } else {
        MarkRunning();
      }
    }

    method Handle(e: Event)
      requires Valid() && wif.Some?
      modifies this
      ensures Valid() && Current() == Handled(old(Current()), e, capacity)
    {
      HandledIsGood(Current(), e, capacity);
      ghost var i := wif.value;
      received := received[i := received[i] + [e]];
      if e.kind == Error {
        MarkFailing();
        Stop();
      }
      if resultC.Some? && |resultC.value| < capacity {
        resultC := Some(resultC.value + [e]);
        delivered := delivered[i := delivered[i] + [e]];
      } else {
        MarkFailing();
        Stop();
        ScheduleReopen();
      }
    }

    /** One round of the loop, or of its reader. */
    method Step(input: Input)
      requires Valid()
      modifies this
      ensures Valid() && Current() == Next(old(Current()), input, capacity)
    {
      NextIsGood(Current(), input, capacity);
      match input
      case Arrives(e) =>
        if wif.Some? {
          Handle(e);
        }
      case Expires(createOk) =>
        if wif.Some? {
          Reopen(createOk);
        }
      case TimerFires(createOk) =>
        if reopenC {
          reopenC := false;
          Reopen(createOk);
        }
      case ReaderTakes =>
        if resultC.Some? && resultC.value != [] {
          taken := taken + [resultC.value[0]];
          resultC := Some(resultC.value[1..]);
        }
    }
  }

  /** The endless loop, cut after any number of rounds. */
  method Loop(w: Watch, inputs: seq<Input>)
    requires w.Valid()
    modifies w
    ensures w.Valid() && w.Current() == Run(old(w.Current()), inputs, w.capacity)
  {
    for i := 0 to |inputs|
      invariant w.Valid() && w.Current() == Run(old(w.Current()), inputs[..i], w.capacity)
    {
      assert inputs[..i + 1][..i] == inputs[..i];
      w.Step(inputs[i]);
    }
    assert inputs[..|inputs|] == inputs;
  }
}
