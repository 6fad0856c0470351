/**
 The time budget of a Lua script, glspi_run.c.  Times are read from a clock that the
 operations get as a parameter.
 */
module ScriptTimer {

  const DEFAULT_MAX_EXEC_TIME := 15

  /** What glspi_pause_timer adds to every run segment. */
  const PAUSE_FEE := 0.1

  /** A GTimer. */
  datatype Timer = Timer(start: real, end: real, active: bool) {
    function Elapsed(now: real): real {
      (if active then now else end) - start
    }
  }

  /** The timing part of a StateInfo. */
  datatype Info = Info(max: int, remaining: real, timer: Timer, counter: nat, optimized: bool)

  /** What happens to a script; `answer` is what the user says if asked to continue. */
  datatype Event =
    | LineReached(now: real, answer: bool)
    | Pause(now: real)
    | Resume(now: real)
    | Timeout(limit: nat)
    | Optimize

  function Restarted(now: real): Timer {
    Timer(now, now, true)
  }

  /** Whether debug_hook asks the user. */
  predicate Asks(i: Info, now: real) {
    !i.optimized && i.max != 0 && i.timer.Elapsed(now) > i.remaining
  }

  function NextCount(counter: nat): nat {
    if counter > 100000 then 0 else counter + 1
  }

  /** What an event does; a script whose user declines is stopped and has no more events. */
  function Step(i: Info, e: Event): Info {
    match e
    case LineReached(now, answer) =>
      if i.optimized then i
      else if Asks(i, now) then
        if answer then i.(remaining := i.max as real, timer := Restarted(now), counter := NextCount(i.counter)) else i
      else i.(counter := NextCount(i.counter))
    case Pause(now) =>
      var rest := i.remaining - (i.timer.Elapsed(now) + PAUSE_FEE);
      i.(remaining := if rest < 0.0 then 0.0 else rest, timer := i.timer.(end := now, active := false))
    case Resume(now) => i.(timer := Restarted(now))
    case Timeout(limit) => i.(max := limit, remaining := limit as real)
    case Optimize => i.(optimized := true)
  }

  class StateInfo {
    var max: int
    var remaining: real
    var timer: Timer
    var counter: nat
    var optimized: bool

    /** glspi_state_new */
    constructor (now: real)
      ensures Value() == NewInfo(now)
    {
      max, remaining := DEFAULT_MAX_EXEC_TIME, DEFAULT_MAX_EXEC_TIME as real;
      timer, counter, optimized := Restarted(now), 0, false;
    }

    function Value(): Info
      reads this
    {
      Info(max, remaining, timer, counter, optimized)
    }

    /** debug_hook, from the check of the timer on */
    method DebugHook(now: real, answer: bool) returns (asked: bool, stopped: bool)
      modifies this
      ensures Value() == Step(old(Value()), LineReached(now, answer))
      ensures asked == Asks(old(Value()), now) && stopped == (asked && !answer)
    {
      asked, stopped := false, false;
      if !optimized {
        if max != 0 && timer.Elapsed(now) > remaining {
          asked := true;
          if answer {
            remaining := max as real;
            timer := Restarted(now);
          } else {
            stopped := true;
            return;
          }
        }
        if counter > 100000 {
          counter := 0;
        } else {
          counter := counter + 1;
        }
      }
    }

    /** glspi_pause_timer */
    method PauseTimer(pause: bool, now: real)
      modifies this
      ensures Value() == Step(old(Value()), if pause then Pause(now) else Resume(now))
    {
      if pause {
        remaining := remaining - (timer.Elapsed(now) + PAUSE_FEE);
        if remaining < 0.0 { remaining := 0.0; }
        timer := timer.(end := now, active := false);
      } else {
        timer := Restarted(now);
      }
    }

    /** glspi_timeout; a negative limit is an error. */
    method SetTimeout(limit: int) returns (ok: bool)
      modifies this
      ensures ok == (limit >= 0)
      ensures Value() == if limit >= 0 then Step(old(Value()), Timeout(limit)) else old(Value())
    {
      ok := limit >= 0;
      if ok {
        max, remaining := limit, limit as real;
      }
    }
  }

  function NewInfo(now: real): Info {
    Info(DEFAULT_MAX_EXEC_TIME, DEFAULT_MAX_EXEC_TIME as real, Restarted(now), 0, false)
  }

  // ----- The ledger

  /**
   What should be charged to a script: the limit last granted, the time of the completed
   run segments since then with a fee for each, and when the present segment began.
   */
  datatype Ledger = Ledger(limit: nat, charged: real, since: real, optimized: bool)

  /** Some time has passed in the present segment, and all charged time exceeds the limit. */
  predicate Exceeded(l: Ledger, now: real) {
    !l.optimized && l.limit > 0 && now > l.since && l.charged + (now - l.since) > l.limit as real
  }

  function Charge(l: Ledger, e: Event): Ledger {
    match e
    case LineReached(now, answer) => if Exceeded(l, now) && answer then l.(charged := 0.0, since := now) else l
    case Pause(now) => l.(charged := l.charged + (now - l.since) + PAUSE_FEE)
    case Resume(now) => l.(since := now)
    case Timeout(limit) => l.(limit := limit, charged := 0.0)
    case Optimize => l.(optimized := true)
  }

  function NewLedger(now: real): Ledger {
    Ledger(DEFAULT_MAX_EXEC_TIME, 0.0, now, false)
  }

  /** An event can come next: time does not run backwards, and pausing and resuming alternate. */
  predicate MayCome(i: Info, e: Event) {
    match e
    case LineReached(now, answer) => i.timer.active && now >= i.timer.start && (Asks(i, now) ==> answer)
    case Pause(now) => i.timer.active && now >= i.timer.start
    case Resume(now) => !i.timer.active && now >= i.timer.end
    case Timeout(_) => i.timer.active
    case Optimize => i.timer.active
  }

  predicate Possible(i: Info, events: seq<Event>)
    decreases |events|
  {
    events == [] || (MayCome(i, events[0]) && Possible(Step(i, events[0]), events[1..]))
  }

  function Run(i: Info, events: seq<Event>): Info
    decreases |events|
  {
    if events == [] then i else Run(Step(i, events[0]), events[1..])
  }

  function ChargeAll(l: Ledger, events: seq<Event>): Ledger
    decreases |events|
  {
    if events == [] then l else ChargeAll(Charge(l, events[0]), events[1..])
  }

  function AtLeastZero(x: real): real {
    if x < 0.0 then 0.0 else x
  }

  /** The clipped remainder is the limit less everything charged, clipped once. */
  predicate Agrees(i: Info, l: Ledger) {
    && i.max == l.limit && i.optimized == l.optimized && i.timer.start == l.since
    && l.charged >= 0.0
    && i.remaining == AtLeastZero(l.limit as real - l.charged)
  }

  /** The hook asks exactly when the ledger says that the limit is exceeded. */
  lemma AsksExactly(i: Info, l: Ledger, now: real)
    requires Agrees(i, l) && i.timer.active
    ensures Asks(i, now) <==> Exceeded(l, now)
  {
  }

  lemma StepAgrees(i: Info, l: Ledger, e: Event)
    requires Agrees(i, l) && MayCome(i, e)
    ensures Agrees(Step(i, e), Charge(l, e))
  {
    match e
    case LineReached(now, _) => AsksExactly(i, l, now);
    case _ =>
  }

  lemma {:induction false} RunAgrees(i: Info, l: Ledger, events: seq<Event>)
    requires Agrees(i, l) && Possible(i, events)
    ensures Agrees(Run(i, events), ChargeAll(l, events))
    decreases |events|
  {
    if events != [] {
      StepAgrees(i, l, events[0]);
      RunAgrees(Step(i, events[0]), Charge(l, events[0]), events[1..]);
    }
  }

  /** Over all runs: what remains is the limit less what was charged, and the hook asks exactly when that is exceeded. */
  lemma BudgetIsConserved(start: real, events: seq<Event>)
    requires Possible(NewInfo(start), events)
    ensures var i, l := Run(NewInfo(start), events), ChargeAll(NewLedger(start), events);
      && i.remaining == AtLeastZero(l.limit as real - l.charged)
      && forall now: real :: i.timer.active ==> (Asks(i, now) <==> Exceeded(l, now))
  {
    RunAgrees(NewInfo(start), NewLedger(start), events);
    var i, l := Run(NewInfo(start), events), ChargeAll(NewLedger(start), events);
    forall now: real | i.timer.active
      ensures Asks(i, now) <==> Exceeded(l, now)
    {
      AsksExactly(i, l, now);
    }
  }

  // ----- The repaint counter

  /** The lines reached before the script is optimized. */
  function LinesReached(events: seq<Event>): nat
    decreases |events|
  {
    if events == [] || events[0].Optimize? then 0
    else (if events[0].LineReached? then 1 else 0) + LinesReached(events[1..])
  }

  lemma {:induction false} OptimizedKeepsCount(i: Info, events: seq<Event>)
    requires i.optimized
    ensures Run(i, events).counter == i.counter
    decreases |events|
  {
    if events != [] { OptimizedKeepsCount(Step(i, events[0]), events[1..]); }
  }

  lemma NextCountIs(counter: nat, more: nat)
    requires counter <= 100001
    ensures NextCount(counter) <= 100001
    ensures (NextCount(counter) + more) % 100002 == (counter + 1 + more) % 100002
  {
  }

  /** Over all runs the window is repainted at every 100002nd line, until the script is optimized. */
  lemma {:induction false} CountIs(i: Info, events: seq<Event>)
    requires Possible(i, events) && !i.optimized && i.counter <= 100001
    ensures Run(i, events).counter == (i.counter + LinesReached(events)) % 100002
    decreases |events|
  {
    hide NextCount, Timer.Elapsed;
    if events != [] {
      var next := Step(i, events[0]);
      NextCountIs(i.counter, LinesReached(events[1..]));
      if events[0].Optimize? {
        OptimizedKeepsCount(next, events[1..]);
      } else {
        CountIs(next, events[1..]);
      }
    }
  }

  // ----- Between grants

  /** A run segment of the first length, then a dialog of the second. */
  type Round = (real, real)

  function Rounds(now: real, rounds: seq<Round>): seq<Event>
    decreases |rounds|
  {
    if rounds == [] then []
    else
      var paused := now + rounds[0].0;
      var resumed := paused + rounds[0].1;
      [Pause(paused), Resume(resumed)] + Rounds(resumed, rounds[1..])
  }

  function Total(rounds: seq<Round>): real {
    if rounds == [] then 0.0 else rounds[0].0 + PAUSE_FEE + Total(rounds[1..])
  }

  /** Each completed dialog charges its run segment and the fee; the time of the dialog itself is free. */
  lemma {:induction false} RoundsCharge(l: Ledger, rounds: seq<Round>)
    ensures var l' := ChargeAll(l, Rounds(l.since, rounds));
      l'.charged == l.charged + Total(rounds) && l'.limit == l.limit && l'.optimized == l.optimized
    decreases |rounds|
  {
    if rounds != [] {
      var events := Rounds(l.since, rounds);
      var paused := l.since + rounds[0].0;
      var resumed := paused + rounds[0].1;
      assert events[1..][0] == Resume(resumed) && events[1..][1..] == Rounds(resumed, rounds[1..]);
      var l1 := Charge(Charge(l, Pause(paused)), Resume(resumed));
      assert ChargeAll(l, events) == ChargeAll(Charge(l, events[0]), events[1..]) == ChargeAll(l1, Rounds(resumed, rounds[1..]));
      RoundsCharge(l1, rounds[1..]);
    }
  }

  lemma {:induction false} RoundsPossible(i: Info, rounds: seq<Round>)
    requires i.timer.active && forall r | r in rounds :: r.0 >= 0.0 && r.1 >= 0.0
    ensures Possible(i, Rounds(i.timer.start, rounds))
    decreases |rounds|
  {
    if rounds != [] {
      var events := Rounds(i.timer.start, rounds);
      var paused := i.timer.start + rounds[0].0;
      var resumed := paused + rounds[0].1;
      assert rounds[0] in rounds;
      assert events[1..][0] == Resume(resumed) && events[1..][1..] == Rounds(resumed, rounds[1..]);
      var i1 := Step(Step(i, Pause(paused)), Resume(resumed));
      RoundsPossible(i1, rounds[1..]);
      assert Possible(Step(i, Pause(paused)), events[1..]);
    }
  }

  /** After any sequence of run segments and dialogs since a grant, what remains is the limit less all segments and fees. */
  lemma RemainingAfterRounds(i: Info, rounds: seq<Round>)
    requires i.timer.active && i.max >= 0 && i.remaining == i.max as real
    requires forall r | r in rounds :: r.0 >= 0.0 && r.1 >= 0.0
    ensures Run(i, Rounds(i.timer.start, rounds)).remaining == AtLeastZero(i.max as real - Total(rounds))
  {
    var l := Ledger(i.max, 0.0, i.timer.start, i.optimized);
    RoundsPossible(i, rounds);
    RunAgrees(i, l, Rounds(i.timer.start, rounds));
    RoundsCharge(l, rounds);
  }
}
