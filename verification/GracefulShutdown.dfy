/**
 * Graceful shutdown: the first trigger sets the flag, starts closing the app and arms a timer; whichever of
 * the two settles first decides the exit code.
 */
module GracefulShutdown {
  import opened Prelude

  datatype Signal = SIGTERM | SIGINT

  /** What `app.close()` rejected with; `undefined` is a value JavaScript can reject with. */
  datatype Rejection = WithUndefined | WithError

  datatype Event =
    | Install
    | Receive(signal: Signal)
    | Trigger(signal: Signal)
    | CloseResolves
    | CloseRejects(reason: Rejection)
    | TimerFires

  datatype Closing = NotStarted | Pending | Settled(rejection: Option<Rejection>)
  datatype Timer = Unset | Armed | Cleared | Fired
  datatype Decision = Undecided | ClosedFirst | TimedOut

  /** Effects in the order they happen. */
  datatype Effect = SetFlag | CallClose | Exit(code: int)

  datatype State = State(
    installed: bool,
    listening: set<Signal>,
    triggered: bool,
    closing: Closing,
    timer: Timer,
    decision: Decision,
    effects: seq<Effect>)

  const FRESH := State(false, {}, false, NotStarted, Unset, Undecided, [])

  // ---- Steps --------------------------------------------------------------

  /** `trigger`: only the first call does anything; it sets the flag before it starts to close. */
  function Triggered(s: State): State {
    if s.triggered then s
    else s.(triggered := true, closing := Pending, timer := Armed, effects := s.effects + [SetFlag, CallClose])
  }

  /** The race is decided: clear the timer and exit. */
  function Decided(s: State, winner: Decision): State
    requires winner != Undecided
  {
    var failed := s.closing == Settled(Some(WithError));
    var code := if winner == TimedOut || failed then 1 else 0;
    s.(decision := winner, timer := if s.timer == Armed then Cleared else s.timer, effects := s.effects + [Exit(code)])
  }

  /** Events that cannot happen in a state leave it as it is. */
  function Step(s: State, e: Event): State {
    match e
    case Install =>
      if s.installed then s else s.(installed := true, listening := {SIGTERM, SIGINT})
    case Receive(signal) =>
      if signal in s.listening then Triggered(s.(listening := s.listening - {signal})) else s
    case Trigger(_) =>
      if s.installed then Triggered(s) else s
    case CloseResolves =>
      SettleClose(s, None)
    case CloseRejects(reason) =>
      SettleClose(s, Some(reason))
    case TimerFires =>
      if s.timer != Armed then s else Decided(s.(timer := Fired), TimedOut)
  }

  function SettleClose(s: State, rejection: Option<Rejection>): State {
    if s.closing != Pending then s
    else
      var settled := s.(closing := Settled(rejection));
      if s.decision == Undecided then Decided(settled, ClosedFirst) else settled
  }

  function Run(events: seq<Event>): State {
    if events == [] then FRESH else Step(Run(events[..|events| - 1]), events[|events| - 1])
  }

  // ---- The reference: which event decides ---------------------------------

  predicate Settles(e: Event) {
    e.CloseResolves? || e.CloseRejects? || e.TimerFires?
  }

  /** The index of the first event of a kind, or the length. */
  function First(events: seq<Event>, from: nat, wanted: Event -> bool): (i: nat)
    requires from <= |events|
    ensures from <= i <= |events| && (i < |events| ==> wanted(events[i]))
    ensures forall k :: from <= k < i ==> !wanted(events[k])
    decreases |events| - from
  {
    if from == |events| || wanted(events[from]) then from else First(events, from + 1, wanted)
  }

  predicate Installs(e: Event) {
    e.Install?
  }

  predicate Asks(e: Event) {
    e.Receive? || e.Trigger?
  }

  /** The first trigger after the installation, and the first settling event after that, if they come. */
  function StartOf(events: seq<Event>): nat {
    var installed := First(events, 0, Installs);
    First(events, installed, Asks)
  }

  function DeciderOf(events: seq<Event>): nat {
    First(events, StartOf(events), Settles)
  }

  /** The first settling event, if one came. */
  function Decider(events: seq<Event>): Option<Event> {
    if DeciderOf(events) < |events| then Some(events[DeciderOf(events)]) else None
  }

  /** What shutdown must have done: nothing, the start, or the start and one exit. */
  function EffectsOf(started: bool, decider: Option<Event>): seq<Effect> {
    if !started then []
    else if decider.None? then [SetFlag, CallClose]
    else [SetFlag, CallClose, Exit(CodeOf(decider.value))]
  }

  /** Exit code 0 for a close without an error, or with the error `undefined`; otherwise 1. */
  function CodeOf(e: Event): int {
    match e
    case CloseResolves => 0
    case CloseRejects(reason) => if reason == WithError then 1 else 0
    case _ => 1
  }

  // ---- The machine does what it must --------------------------------------

  ghost predicate Inv(s: State) {
    && (s.listening != {} ==> s.installed)
    && (s.triggered ==> s.installed)
    && (s.triggered <==> s.closing != NotStarted)
    && (s.timer == Armed <==> s.triggered && s.decision == Undecided)
    && (s.decision == Undecided && s.triggered ==> s.closing == Pending)
    && (!s.triggered ==> s.effects == [] && s.decision == Undecided && s.timer == Unset)
    && (s.triggered && s.decision == Undecided ==> s.effects == [SetFlag, CallClose])
    && (s.decision != Undecided ==> exists code :: s.effects == [SetFlag, CallClose, Exit(code)])
    && (s.installed && !s.triggered ==> s.listening == {SIGTERM, SIGINT})
  }

  lemma {:induction false} RunInv(events: seq<Event>)
    ensures Inv(Run(events))
  {
    if events != [] {
      RunInv(events[..|events| - 1]);
    }
  }

  /** One more event moves the first of a kind only if there was none yet. */
  lemma {:induction false} FirstExtends(events: seq<Event>, e: Event, from: nat, wanted: Event -> bool)
    requires from <= |events|
    ensures First(events + [e], from, wanted) ==
      if First(events, from, wanted) < |events| then First(events, from, wanted)
      else if wanted(e) then |events| else |events| + 1
    decreases |events| - from
  {
    var longer := events + [e];
    if from == |events| {
      assert longer[from] == e;
    } else {
      assert longer[from] == events[from];
      if !wanted(events[from]) {
        FirstExtends(events, e, from + 1, wanted);
      }
    }
  }

  /** Starting the search at the end or one beyond it finds nothing but the last event. */
  lemma FirstFromEnd(events: seq<Event>, e: Event, wanted: Event -> bool)
    ensures First(events + [e], |events|, wanted) == if wanted(e) then |events| else |events| + 1
    ensures First(events + [e], |events| + 1, wanted) == |events| + 1
  {
    assert (events + [e])[|events|] == e;
  }

  /** What a state says, in terms of what has come so far: an installation, a start, a settling event. */
  ghost predicate Tells(s: State, installed: bool, started: bool, decider: Option<Event>) {
    && s.installed == installed
    && s.triggered == started
    && (s.decision != Undecided <==> decider.Some?)
    && s.effects == EffectsOf(started, decider)
  }

  /** The state after the events, in terms of the three first events. */
  ghost predicate Meets(events: seq<Event>) {
    var s := Run(events);
    Tells(s, First(events, 0, Installs) < |events|, StartOf(events) < |events|, Decider(events))
  }

  lemma PlacesExtend(events: seq<Event>, e: Event)
    ensures var longer, n := events + [e], |events|;
      && StartOf(longer) == (if StartOf(events) < n then StartOf(events)
                             else if First(events, 0, Installs) < n && Asks(e) then n else n + 1)
      && DeciderOf(longer) == (if DeciderOf(events) < n then DeciderOf(events)
                               else if StartOf(events) < n && Settles(e) then n else n + 1)
  {
    var longer, n := events + [e], |events|;
    FirstExtends(events, e, 0, Installs);
    FirstFromEnd(events, e, Asks);
    FirstFromEnd(events, e, Settles);
    var installed := First(events, 0, Installs);
    if installed < n {
      FirstExtends(events, e, installed, Asks);
    } else if Installs(e) {
      assert First(longer, n, Asks) == n + 1;
    }
    if StartOf(events) < n {
      FirstExtends(events, e, StartOf(events), Settles);
    } else if StartOf(longer) == n {
      assert Asks(e) && !Settles(e);
    }
  }

  lemma StepTells(s: State, e: Event, installed: bool, started: bool, decider: Option<Event>)
    requires Inv(s) && Tells(s, installed, started, decider)
    ensures Tells(Step(s, e), installed || Installs(e), started || (installed && Asks(e)),
                  if decider.None? && started && Settles(e) then Some(e) else decider)
  {
    if e.Receive? && s.installed && !s.triggered {
      assert e.signal == SIGTERM || e.signal == SIGINT;
      assert e.signal in s.listening;
    }
  }

  lemma DeciderExtends(events: seq<Event>, e: Event)
    ensures Decider(events + [e]) ==
      if Decider(events).None? && StartOf(events) < |events| && Settles(e) then Some(e) else Decider(events)
  {
    PlacesExtend(events, e);
    hide First, StartOf, DeciderOf;
  }

  /**
   * Every interleaving of installs, signals, manual triggers, settling closes and the timer: exactly the
   * expected effects, so the flag is set before the close, the close is called once, and there is at most
   * one exit, whose code the first settling event decides.
   */
  lemma {:induction false} ShutdownMeetsContract(events: seq<Event>)
    ensures Meets(events)
  {
    if events != [] {
      var n := |events| - 1;
      var before, e := events[..n], events[n];
      ShutdownMeetsContract(before);
      RunInv(before);
      assert events == before + [e];
      FirstExtends(before, e, 0, Installs);
      PlacesExtend(before, e);
      DeciderExtends(before, e);
      hide First, StartOf, DeciderOf;
      StepTells(Run(before), e, First(before, 0, Installs) < n, StartOf(before) < n, Decider(before));
    }
  }

  /** Shutdown begins at `j`: the first signal or manual trigger that comes after an installation. */
  ghost predicate BeginsAt(events: seq<Event>, j: nat) {
    && j < |events| && (events[j].Receive? || events[j].Trigger?)
    && (exists i :: 0 <= i < j && events[i] == Install)
    && (forall i, h :: 0 <= i < h < j && events[i] == Install ==> !events[h].Receive? && !events[h].Trigger?)
  }

  /** No close and no timer settles from `j` on, up to `k`. */
  ghost predicate OpenUntil(events: seq<Event>, j: nat, k: nat) {
    && j <= k <= |events|
    && forall h :: j <= h < k ==> !events[h].CloseResolves? && !events[h].CloseRejects? && !events[h].TimerFires?
  }

  lemma BeginsAtStart(events: seq<Event>, j: nat)
    ensures BeginsAt(events, j) <==> j == StartOf(events) < |events|
  {
    var installed := First(events, 0, Installs);
    if BeginsAt(events, j) {
      assert installed < j;
      assert events[installed] == Install;
      assert StartOf(events) <= j;
    }
    if j == StartOf(events) < |events| {
      assert events[installed] == Install && Asks(events[j]) && installed < j;
      forall i, h | 0 <= i < h < j && events[i] == Install ensures !events[h].Receive? && !events[h].Trigger? {
        assert Installs(events[i]) && installed <= i;
        assert !Asks(events[h]);
      }
    }
  }

  /** Until shutdown begins nothing happens; until a close or the timer settles, only the flag and the close. */
  lemma StartExactly(events: seq<Event>)
    ensures (forall j: nat :: !BeginsAt(events, j)) ==> Run(events).effects == []
    ensures forall j: nat :: BeginsAt(events, j) && OpenUntil(events, j, |events|) ==>
              Run(events).effects == [SetFlag, CallClose]
  {
    ShutdownMeetsContract(events);
    BeginsAtStart(events, StartOf(events));
    forall j: nat | BeginsAt(events, j) && OpenUntil(events, j, |events|)
      ensures Run(events).effects == [SetFlag, CallClose]
    {
      BeginsAtStart(events, j);
      assert DeciderOf(events) == |events|;
    }
    hide BeginsAt, Run, StartOf, DeciderOf;
  }

  /** The first to settle decides the one exit: 1 for the timer and for an error, 0 otherwise. */
  lemma ExitExactly(events: seq<Event>, j: nat, k: nat)
    requires BeginsAt(events, j) && OpenUntil(events, j, k) && k < |events|
    requires events[k].CloseResolves? || events[k].CloseRejects? || events[k].TimerFires?
    ensures Run(events).effects == [SetFlag, CallClose,
      Exit(if events[k] == CloseResolves || events[k] == CloseRejects(WithUndefined) then 0 else 1)]
  {
    ShutdownMeetsContract(events);
    BeginsAtStart(events, j);
    assert Settles(events[k]) && DeciderOf(events) == k;
    hide BeginsAt, Run, StartOf, DeciderOf;
  }

  function Occurrences(effects: seq<Effect>, wanted: Effect -> bool): nat {
    if effects == [] then 0
    else Occurrences(effects[..|effects| - 1], wanted) + if wanted(effects[|effects| - 1]) then 1 else 0
  }

  /** Close and exit happen at most once each, and nothing closes or exits before the flag is set. */
  lemma CloseAndExitOnce(events: seq<Event>)
    ensures var effects := Run(events).effects;
      && Occurrences(effects, (e: Effect) => e == CallClose) <= 1
      && Occurrences(effects, (e: Effect) => e.Exit?) <= 1
      && (effects != [] ==> |effects| >= 2 && effects[0] == SetFlag && effects[1] == CallClose)
  {
    ShutdownMeetsContract(events);
    var effects := EffectsOf(StartOf(events) < |events|, Decider(events));
    hide First, StartOf, DeciderOf, Run;
    if effects != [] {
      OccurrencesStart((e: Effect) => e == CallClose);
      OccurrencesStart((e: Effect) => e.Exit?);
      if |effects| == 3 {
        assert effects[..2] == [SetFlag, CallClose];
      }
    }
  }

  lemma OccurrencesStart(wanted: Effect -> bool)
    ensures Occurrences([SetFlag, CallClose], wanted)
         == (if wanted(SetFlag) then 1 else 0) + (if wanted(CallClose) then 1 else 0)
  {
    assert [SetFlag, CallClose][..1] == [SetFlag] && [SetFlag][..0] == [];
  }

  /**
   * The exit code is 0 exactly when a close settles before the timer and either resolves or rejects with
   * `undefined`: that one failure is reported as success.
   */
  lemma ExitCodeExactly(events: seq<Event>)
    ensures Exit(0) in Run(events).effects
      <==> Decider(events) == Some(CloseResolves) || Decider(events) == Some(CloseRejects(WithUndefined))
    ensures Exit(1) in Run(events).effects
      <==> Decider(events) == Some(TimerFires) || Decider(events) == Some(CloseRejects(WithError))
  {
    ShutdownMeetsContract(events);
    if Decider(events).Some? {
      var e := Decider(events).value;
      assert Settles(e) && Run(events).effects[2] == Exit(CodeOf(e));
    }
  }

  /** A close that rejects with `undefined` after a trigger: the process exits with 0. */
  lemma UndefinedRejectionExitsZero()
    ensures Run([Install, Trigger(SIGTERM), CloseRejects(WithUndefined)]).effects == [SetFlag, CallClose, Exit(0)]
  {
    var events := [Install, Trigger(SIGTERM), CloseRejects(WithUndefined)];
    assert events[..2] == [Install, Trigger(SIGTERM)] && events[..2][..1] == [Install] && [Install][..0] == [];
    assert Run([Install]) == Step(FRESH, Install);
    assert Run(events[..2]) == Step(Run([Install]), Trigger(SIGTERM));
  }

  /** If closing never settles, the timer still brings the exit, with code 1. */
  lemma HangingCloseExits(events: seq<Event>, i: nat)
    requires forall k :: 0 <= k < |events| ==> !events[k].CloseResolves? && !events[k].CloseRejects?
    requires StartOf(events) <= i < |events| && events[i] == TimerFires
    ensures Run(events).effects == [SetFlag, CallClose, Exit(1)]
  {
    ShutdownMeetsContract(events);
    assert Settles(events[i]);
    assert DeciderOf(events) <= i;
  }

  // ---- The handlers -------------------------------------------------------

  /** The app's shutdown state, changed as signals and promises settle. */
  class ShutdownHandle {
    var s: State

    constructor ()
      ensures s == FRESH
    {
      s := FRESH;
    }

    method InstallGracefulShutdown()
      modifies this
      ensures s == Step(old(s), Install)
    {
      if s.installed {
        return;
      }
      s := s.(installed := true, listening := {SIGTERM, SIGINT});
    }

    method BeginShutdown()
      modifies this
      ensures s == Triggered(old(s))
    {
      if s.triggered {
        return;
      }
      s := s.(triggered := true);
      s := s.(effects := s.effects + [SetFlag]);
      s := s.(timer := Armed);
      s := s.(closing := Pending, effects := s.effects + [CallClose]);
    }

    method OnSignal(signal: Signal)
      modifies this
      ensures s == Step(old(s), Receive(signal))
    {
      if signal in s.listening {
        s := s.(listening := s.listening - {signal});
        BeginShutdown();
      }
    }

    method OnCloseSettled(rejection: Option<Rejection>)
      modifies this
      ensures s == SettleClose(old(s), rejection)
    {
      if s.closing != Pending {
        return;
      }
      s := s.(closing := Settled(rejection));
      if s.decision == Undecided {
        Finish(ClosedFirst);
      }
    }

    method OnTimer()
      modifies this
      ensures s == Step(old(s), TimerFires)
    {
      if s.timer != Armed {
        return;
      }
      s := s.(timer := Fired);
      Finish(TimedOut);
    }

    method Finish(winner: Decision)
      requires winner != Undecided
      modifies this
      ensures s == Decided(old(s), winner)
    {
      s := s.(decision := winner);
      if s.timer == Armed {
        s := s.(timer := Cleared);
      }
      if winner == TimedOut {
        s := s.(effects := s.effects + [Exit(1)]);
      } else if s.closing == Settled(Some(WithError)) {
        s := s.(effects := s.effects + [Exit(1)]);
      } else {
        s := s.(effects := s.effects + [Exit(0)]);
      }
    }
  }
}
