/** The ground sensor's state machine: one timer, one handler, and callbacks from the TCP push in between. */
module SensorSpec {
  const MAX_WIFIUP_RETRY_ATTEMPTS := 22
  const MAX_TELEMETRY_RETRY_ATTEMPTS := 20
  const MAX_TELEMETRY := 3
  const NULL := 0

  datatype State =
    | Boot | Settle | Sensors | WifiPending | Telemetry | TelemetryPending | TelemetryFault | Done | RebootRequired
    | Error

  /** How a run ended: in deep sleep, with a restart, or left to the console. */
  datatype Ending = Running | Asleep | Restarted | Console

  datatype Wifi = Busy | ConnectFail | NoApFound | GotIp

  datatype Fault = WifiConnect | WifiApNotFound

  /** Waits in seconds. */
  datatype Config = Config(settle: int, wifiup: int, transmit: int, reboot: int, diag2: bool)

  /** What the hardware answers during one invocation of the handler: the station status, and the handle that the
      TCP push stores when it gets going (NULL when it does not). */
  datatype Answers = Answers(wifi: Wifi, handle: int)

  /** The timer's delay in seconds is 0 when it is not armed. */
  datatype Machine = Machine(state: State, errors: set<Fault>, wifiPending: bool, wifiRetried: nat,
                             telemetryRetried: nat, handles: seq<int>, sent: seq<bool>, timer: int, ending: Ending)

  /** Waits from the environment replace the defaults only when they are positive. */
  function Wait(setting: int, default: int): int {
    if setting > 0 then setting else default
  }

  function Configured(settle: int, wifiup: int, diag2: bool): Config {
    Config(Wait(settle, 3), Wait(wifiup, 1), 1, 60 * 30, diag2)
  }

  predicate Positive(c: Config) {
    c.settle > 0 && c.wifiup > 0 && c.transmit > 0 && c.reboot > 0
  }

  function Go(m: Machine, state: State, delay: int): Machine {
    m.(state := state, timer := delay)
  }

  function CheckWifi(m: Machine, wifi: Wifi): Machine {
    match wifi
    case Busy => m
    case ConnectFail => m.(errors := m.errors + {WifiConnect}, wifiPending := false)
    case NoApFound => m.(errors := m.errors + {WifiApNotFound}, wifiPending := false)
    case GotIp => m.(wifiPending := false)
  }

  function HandleWifi(c: Config, before: Machine, wifi: Wifi): Machine {
    var m := CheckWifi(before, wifi);
    if m.wifiPending then
      var counted := m.(wifiRetried := m.wifiRetried + 1);
      if m.wifiRetried > MAX_WIFIUP_RETRY_ATTEMPTS then Go(counted, Error, 0).(ending := Console)
      else Go(counted, WifiPending, c.wifiup)
    else if WifiApNotFound in m.errors then Go(m, RebootRequired, 30)
    else Go(m, Telemetry, c.wifiup)
  }

  function DoTelemetry(m: Machine, handle: int): Machine {
    m.(handles := [handle, NULL, NULL], sent := [false, true, true], telemetryRetried := 0)
  }

  function HandleTelemetry(c: Config, m: Machine): Machine {
    if false in m.sent then
      var counted := m.(telemetryRetried := m.telemetryRetried + 1);
      var exhausted := m.telemetryRetried > MAX_TELEMETRY_RETRY_ATTEMPTS;
      Go(counted, if exhausted then TelemetryFault else TelemetryPending, c.transmit)
    else Go(m, Done, 3)
  }

  /** One invocation of the handler; the timer that led to it has run out. */
  function Handle(c: Config, m: Machine, a: Answers): Machine {
    match m.state
    case Boot => Go(m, Settle, c.settle)
    case Settle => Go(m, Sensors, 1)
    case Sensors => Go(m.(wifiPending := true, wifiRetried := 0), WifiPending, c.wifiup)
    case WifiPending => HandleWifi(c, m, a.wifi)
    case Telemetry => Go(DoTelemetry(m, a.handle), TelemetryPending, c.transmit)
    case TelemetryPending => HandleTelemetry(c, m)
    case TelemetryFault => Go(m, RebootRequired, c.reboot)
    case Done => m.(timer := 0, ending := if c.diag2 then Console else Asleep)
    case RebootRequired => Go(m, Error, 0).(ending := if c.diag2 then Console else Restarted)
    case Error => m
  }

  /** A finish or fault callback: the first entry with this handle counts as sent. */
  function Answered(m: Machine, handle: int): Machine
    requires |m.handles| == |m.sent| == MAX_TELEMETRY
  {
    if handle == m.handles[0] then m.(sent := m.sent[0 := true])
    else if handle == m.handles[1] then m.(sent := m.sent[1 := true])
    else if handle == m.handles[2] then m.(sent := m.sent[2 := true])
    else m
  }

  function Initial(): Machine {
    Machine(Boot, {}, false, 0, 0, [NULL, NULL, NULL], [false, false, false], 0, Running)
  }

  /** The timer fires, which it does only while it is armed and then once, or a callback comes in. */
  datatype Event = Fires(answers: Answers) | Calls(handle: int)

  function Step(c: Config, m: Machine, e: Event): Machine
    requires |m.handles| == |m.sent| == MAX_TELEMETRY
  {
    match e
    case Fires(a) => if m.timer > 0 then Handle(c, m.(timer := 0), a) else m
    case Calls(handle) => Answered(m, handle)
  }

  lemma StepSized(c: Config, m: Machine, e: Event)
    requires |m.handles| == |m.sent| == MAX_TELEMETRY
    ensures |Step(c, m, e).handles| == |Step(c, m, e).sent| == MAX_TELEMETRY
  {
  }

  function Run(c: Config, m: Machine, es: seq<Event>): (after: Machine)
    requires |m.handles| == |m.sent| == MAX_TELEMETRY
    ensures |after.handles| == |after.sent| == MAX_TELEMETRY
    decreases |es|
  {
    if es == [] then m
    else
      StepSized(c, m, es[0]);
      Run(c, Step(c, m, es[0]), es[1..])
  }

  /** Initialisation runs the handler itself, before any timer. */
  function Started(c: Config, a: Answers): (m: Machine)
    ensures |m.handles| == |m.sent| == MAX_TELEMETRY
  {
    Handle(c, Initial(), a)
  }

  function Firings(es: seq<Event>): nat
    decreases |es|
  {
    if es == [] then 0 else (if es[0].Fires? then 1 else 0) + Firings(es[1..])
  }

  // ---- every run ends ----

  /** How many more invocations of the handler there can be. */
  function Left(m: Machine): int {
    if m.ending != Running then 0
    else match m.state
      case Boot => 52
      case Settle => 51
      case Sensors => 50
      case WifiPending => 26 + MAX_WIFIUP_RETRY_ATTEMPTS + 1 - m.wifiRetried
      case Telemetry => 25
      case TelemetryPending => 3 + MAX_TELEMETRY_RETRY_ATTEMPTS + 1 - m.telemetryRetried
      case TelemetryFault => 2
      case Done => 1
      case RebootRequired => 1
      case Error => 0
  }

  /** The machine runs exactly while its timer is armed, and its counters stay within their limits. */
  predicate Inv(m: Machine) {
    && |m.handles| == |m.sent| == MAX_TELEMETRY
    && (m.timer > 0 <==> m.ending == Running)
    && (m.ending == Running ==> m.state != Error)
    && (m.ending == Running && m.state == WifiPending ==> m.wifiRetried <= MAX_WIFIUP_RETRY_ATTEMPTS + 1)
    && (m.ending == Running && m.state == TelemetryPending ==> m.telemetryRetried <= MAX_TELEMETRY_RETRY_ATTEMPTS + 1)
  }

  lemma HandleCounts(c: Config, m: Machine, a: Answers)
    requires Positive(c) && Inv(m) && m.timer > 0
    ensures var after := Handle(c, m.(timer := 0), a);
            Inv(after) && 0 <= Left(after) < Left(m) && (after.timer > 0 <==> after.ending == Running)
  {
  }

  lemma StepCounts(c: Config, m: Machine, e: Event)
    requires Positive(c) && Inv(m)
    ensures Inv(Step(c, m, e))
    ensures Left(Step(c, m, e)) <= Left(m) - if e.Fires? && m.timer > 0 then 1 else 0
  {
    match e
    case Fires(a) =>
      if m.timer > 0 {
        HandleCounts(c, m, a);
      }
    case Calls(_) =>
  }

  lemma {:induction false} RunCounts(c: Config, m: Machine, es: seq<Event>)
    requires Positive(c) && Inv(m)
    ensures Inv(Run(c, m, es))
    ensures Run(c, m, es).ending == Running ==> Left(Run(c, m, es)) + Firings(es) <= Left(m)
    decreases |es|
  {
    hide Inv, Left, Step;
    if es != [] {
      TimerArmed(m);
      StepSized(c, m, es[0]);
      StepCounts(c, m, es[0]);
      var next := Step(c, m, es[0]);
      RunCounts(c, next, es[1..]);
      if m.ending != Running {
        EndedStays(c, m, es);
      }
    }
  }

  lemma TimerArmed(m: Machine)
    requires Inv(m)
    ensures |m.handles| == |m.sent| == MAX_TELEMETRY
    ensures m.timer > 0 <==> m.ending == Running
    ensures m.ending == Running ==> Left(m) > 0
  {
  }

  lemma {:induction false} EndedStays(c: Config, m: Machine, es: seq<Event>)
    requires Inv(m) && m.ending != Running
    ensures Run(c, m, es).ending == m.ending
    decreases |es|
  {
    if es != [] {
      EndedStays(c, Step(c, m, es[0]), es[1..]);
    }
  }

  /** Whatever the environment settings, the radio and the TCP stack do: once the timer has fired 51 times since
      initialisation, 52 invocations in all, the sensor sleeps, restarts or is left to the console; until then the
      timer is armed with a positive delay. */
  lemma {:induction false} AlwaysEnds(settle: int, wifiup: int, diag2: bool, first: Answers, es: seq<Event>)
    ensures var c := Configured(settle, wifiup, diag2);
            var m := Run(c, Started(c, first), es);
            (m.timer > 0 <==> m.ending == Running) && (Firings(es) >= 51 ==> m.ending != Running)
  {
    var c := Configured(settle, wifiup, diag2);
    var start := Started(c, first);
    RunCounts(c, start, es);
    TimerArmed(Run(c, start, es));
  }

  // ---- the bound is reached ----

  function Waiting(n: nat): seq<Event> {
    seq(n, _ => Fires(Answers(Busy, NULL)))
  }

  lemma {:induction false} RunSplits(c: Config, m: Machine, es: seq<Event>, rest: seq<Event>)
    requires |m.handles| == |m.sent| == MAX_TELEMETRY
    ensures Run(c, m, es + rest) == Run(c, Run(c, m, es), rest)
    ensures Firings(es + rest) == Firings(es) + Firings(rest)
    decreases |es|
  {
    hide Step;
    if es == [] {
      assert es + rest == rest;
    } else {
      StepSized(c, m, es[0]);
      assert (es + rest)[1..] == es[1..] + rest;
      RunSplits(c, Step(c, m, es[0]), es[1..], rest);
    }
  }

  lemma {:induction false} WifiKeepsWaiting(c: Config, m: Machine, n: nat)
    requires Positive(c) && Inv(m) && m.ending == Running && m.state == WifiPending && m.wifiPending
    requires m.wifiRetried + n <= MAX_WIFIUP_RETRY_ATTEMPTS + 1
    ensures Run(c, m, Waiting(n)) == if n == 0 then m else m.(wifiRetried := m.wifiRetried + n, timer := c.wifiup)
    ensures Firings(Waiting(n)) == n
    decreases n
  {
    if n > 0 {
      assert Waiting(n)[1..] == Waiting(n - 1);
      WifiKeepsWaiting(c, Step(c, m, Waiting(n)[0]), n - 1);
    }
  }

  lemma {:induction false} TelemetryKeepsWaiting(c: Config, m: Machine, n: nat)
    requires Positive(c) && Inv(m) && m.ending == Running && m.state == TelemetryPending && false in m.sent
    requires m.telemetryRetried + n <= MAX_TELEMETRY_RETRY_ATTEMPTS + 1
    ensures Run(c, m, Waiting(n))
         == if n == 0 then m else m.(telemetryRetried := m.telemetryRetried + n, timer := c.transmit)
    ensures Firings(Waiting(n)) == n
    decreases n
  {
    if n > 0 {
      assert Waiting(n)[1..] == Waiting(n - 1);
      TelemetryKeepsWaiting(c, Step(c, m, Waiting(n)[0]), n - 1);
    }
  }

  /** The station needs every poll it has. */
  function SlowJoin(): seq<Event> {
    Waiting(2) + (Waiting(23) + [Fires(Answers(GotIp, NULL))])
  }

  /** No TCP callback ever comes. */
  function SlowReport(): seq<Event> {
    Waiting(1) + (Waiting(21) + Waiting(2))
  }

  lemma JoinIsSlow(c: Config, m: Machine)
    requires Positive(c) && Inv(m) && m.ending == Running && m.state == Settle && WifiApNotFound !in m.errors
    ensures var after := Run(c, m, SlowJoin());
            Firings(SlowJoin()) == 26 && Inv(after) && after.ending == Running && after.state == Telemetry
  {
    hide Run, Firings, Waiting;
    var e := Fires(Answers(GotIp, NULL));
    var joined := [e];
    var m1 := TwoWaits(c, m, WifiPending);
    WifiKeepsWaiting(c, m1, 23);
    var m2 := m1.(wifiRetried := 23, timer := c.wifiup);
    StepCounts(c, m2, e);
    var m3 := OneStep(c, m2, e);
    RunSplits(c, m1, Waiting(23), joined);
    RunSplits(c, m, Waiting(2), Waiting(23) + joined);
  }

  lemma ReportIsSlow(c: Config, m: Machine)
    requires Positive(c) && Inv(m) && m.ending == Running && m.state == Telemetry
    ensures var after := Run(c, m, SlowReport());
            Firings(SlowReport()) == 24 && after.ending == Running && after.state == RebootRequired
  {
    var e := Fires(Answers(Busy, NULL));
    assert Waiting(1) == [e];
    var m1 := OneStep(c, m, e);
    StepCounts(c, m, e);
    TelemetryKeepsWaiting(c, m1, 21);
    var m2 := Run(c, m1, Waiting(21));
    RunCounts(c, m1, Waiting(21));
    var m3 := TwoWaits(c, m2, RebootRequired);
    hide Run, Firings, Waiting, Step;
    RunSplits(c, m1, Waiting(21), Waiting(2));
    RunSplits(c, m, Waiting(1), Waiting(21) + Waiting(2));
  }

  /** Some sensor is still running after 51 invocations. */
  lemma BoundIsReached(settle: int, wifiup: int, diag2: bool, first: Answers)
    ensures var c := Configured(settle, wifiup, diag2);
            var es := SlowJoin() + SlowReport();
            Firings(es) == 50 && Run(c, Started(c, first), es).ending == Running
  {
    hide Run, Firings, SlowJoin, SlowReport;
    var c := Configured(settle, wifiup, diag2);
    var m := Started(c, first);
    JoinIsSlow(c, m);
    ReportIsSlow(c, Run(c, m, SlowJoin()));
    RunSplits(c, m, SlowJoin(), SlowReport());
  }

  lemma OneStep(c: Config, m: Machine, e: Event) returns (after: Machine)
    requires |m.handles| == |m.sent| == MAX_TELEMETRY
    ensures after == Run(c, m, [e]) == Step(c, m, e)
    ensures Firings([e]) == if e.Fires? then 1 else 0
  {
    hide Step;
    StepSized(c, m, e);
    after := Step(c, m, e);
    assert [e][1..] == [];
  }

  lemma TwoWaits(c: Config, m: Machine, state: State) returns (after: Machine)
    requires Positive(c) && Inv(m) && m.ending == Running
    requires (m.state == Settle && state == WifiPending)
             || (m.state == TelemetryPending && m.telemetryRetried == 21 && false in m.sent && state == RebootRequired)
    ensures after == Run(c, m, Waiting(2)) && Firings(Waiting(2)) == 2
    ensures Inv(after) && after.ending == Running && after.state == state && after.errors == m.errors
    ensures state == WifiPending ==> after.wifiPending && after.wifiRetried == 0
  {
    var e := Fires(Answers(Busy, NULL));
    assert Waiting(2)[1..] == [e];
    var next := OneStep(c, Step(c, m, e), e);
    after := next;
  }

  // ---- deep sleep only after an answer ----

  predicate Unanswered(m: Machine, stored: set<int>) {
    && |m.handles| == |m.sent| == MAX_TELEMETRY
    && m.state != Done && m.ending != Asleep
    && (m.state == TelemetryPending ==> !m.sent[0] && m.handles[0] in stored)
  }

  /** From power-up on: unless some callback names a handle that a push stored, the sensor never goes to sleep; it
      restarts or stays at the console. */
  lemma {:induction false} NoSleepUnanswered(c: Config, first: Answers, es: seq<Event>, stored: set<int>)
    requires forall e <- es :: (e.Fires? ==> e.answers.handle in stored) && (e.Calls? ==> e.handle !in stored)
    ensures Run(c, Started(c, first), es).ending != Asleep
  {
    StaysAwake(c, Started(c, first), es, stored);
  }

  lemma {:induction false} StaysAwake(c: Config, m: Machine, es: seq<Event>, stored: set<int>)
    requires Unanswered(m, stored)
    requires forall e <- es :: (e.Fires? ==> e.answers.handle in stored) && (e.Calls? ==> e.handle !in stored)
    ensures Run(c, m, es).ending != Asleep
    decreases |es|
  {
    hide Step;
    if es != [] {
      UnansweredStep(c, m, es[0], stored);
      StaysAwake(c, Step(c, m, es[0]), es[1..], stored);
    }
  }

  lemma UnansweredStep(c: Config, m: Machine, e: Event, stored: set<int>)
    requires Unanswered(m, stored)
    requires (e.Fires? ==> e.answers.handle in stored) && (e.Calls? ==> e.handle !in stored)
    ensures Unanswered(Step(c, m, e), stored)
  {
    assert m.state == TelemetryPending ==> false in m.sent;
  }
}

/** The sensor program: the global state struct, its handler and its callbacks. */
module GroundSensor {
  import opened SensorSpec

  class Sensor {
    const config: Config
    var state: State
    var errors: set<Fault>
    var wifiPending: bool
    var wifiRetried: nat
    var telemetryRetried: nat
    var handles: array<int>
    var sent: array<bool>
    var timer: int
    var ending: Ending

    predicate Valid()
      reads this
    {
      handles.Length == sent.Length == MAX_TELEMETRY
    }

    function Value(): (m: Machine)
      requires Valid()
      reads this, handles, sent
      ensures |m.handles| == |m.sent| == MAX_TELEMETRY
    {
      Machine(state, errors, wifiPending, wifiRetried, telemetryRetried, handles[..], sent[..], timer, ending)
    }

    /** Power-up: the static state, then initialisation, which runs the handler. */
    constructor (settle: int, wifiup: int, diag2: bool, answers: Answers)
      ensures config == Configured(settle, wifiup, diag2)
      ensures Valid() && fresh(handles) && fresh(sent)
      ensures Value() == Started(config, answers)
    {
      config := Config(if settle > 0 then settle else 3, if wifiup > 0 then wifiup else 1, 1, 60 * 30, diag2);
      state, errors, wifiPending, wifiRetried, telemetryRetried := Boot, {}, false, 0, 0;
      handles := new int[MAX_TELEMETRY](_ => NULL);
      sent := new bool[MAX_TELEMETRY](_ => false);
      timer, ending := 0, Running;
      new;
      assert handles[..] == [NULL, NULL, NULL] && sent[..] == [false, false, false];
      Handler(answers);
    }

    /** The finish and the fault callback do the same to the state. */
    method Callback(handle: int)
      requires Valid()
      modifies sent
      ensures Value() == Answered(old(Value()), handle)
    {
      var i := 0;
      while i < MAX_TELEMETRY
        invariant 0 <= i <= MAX_TELEMETRY
        invariant forall k :: 0 <= k < i ==> handles[k] != handle
        invariant sent[..] == old(sent[..])
      {
        if handle == handles[i] {
          sent[i] := true;
          return;
        }
        i := i + 1;
      }
    }

    method CheckTelemetry() returns (finished: bool)
      requires Valid()
      ensures finished == (false !in sent[..])
    {
      finished := true;
      var i := 0;
      while i < MAX_TELEMETRY
        invariant 0 <= i <= MAX_TELEMETRY
        invariant finished == (false !in sent[..i])
      {
        assert sent[..i + 1] == sent[..i] + [sent[i]];
        if !sent[i] {
          finished := false;
        }
        i := i + 1;
      }
      assert sent[..i] == sent[..];
    }

    method CheckWifi(wifi: Wifi)
      requires Valid()
      modifies this`errors, this`wifiPending
      ensures Value() == SensorSpec.CheckWifi(old(Value()), wifi)
    {
      var finished := false;
      match wifi {
        case ConnectFail =>
          errors := errors + {WifiConnect};
          finished := true;
        case NoApFound =>
          errors := errors + {WifiApNotFound};
          finished := true;
        case GotIp =>
          finished := true;
        case Busy =>
      }
      if finished {
        wifiPending := false;
      }
    }

    method DoTelemetry(handle: int)
      requires Valid()
      modifies this`telemetryRetried, handles, sent
      ensures Value() == SensorSpec.DoTelemetry(old(Value()), handle)
    {
      var i := 0;
      while i < MAX_TELEMETRY
        invariant 0 <= i <= MAX_TELEMETRY
        invariant forall k :: 0 <= k < i ==> handles[k] == NULL && sent[k]
      {
        handles[i], sent[i] := NULL, true;
        i := i + 1;
      }
      telemetryRetried := 0;
      sent[0] := false;
      handles[0] := handle;
      assert handles[..] == [handle, NULL, NULL] && sent[..] == [false, true, true];
    }

    method Handler(answers: Answers)
      requires Valid()
      modifies this, handles, sent
      ensures Valid() && handles == old(handles) && sent == old(sent)
      ensures Value() == Handle(config, old(Value()), answers)
    {
      var nextState, nextDelay := Error, 0;
      match state {
        case Boot =>
          nextState, nextDelay := Settle, config.settle;
        case Settle =>
          nextState, nextDelay := Sensors, 1;
        case Sensors =>
          wifiPending, wifiRetried := true, 0;
          nextState, nextDelay := WifiPending, config.wifiup;
        case WifiPending =>
          nextState, nextDelay := PollWifi(answers.wifi);
        case Telemetry =>
          DoTelemetry(answers.handle);
          nextState, nextDelay := TelemetryPending, config.transmit;
        case TelemetryPending =>
          nextState, nextDelay := PollTelemetry();
        case TelemetryFault =>
          nextState, nextDelay := RebootRequired, config.reboot;
        case Done =>
          timer := 0;
          ending := if config.diag2 then Console else Asleep;
          return;
        case RebootRequired =>
          ending := if config.diag2 then Console else Restarted;
        case Error =>
          return;
      }
      state, timer := nextState, nextDelay;
    }

    method PollWifi(wifi: Wifi) returns (nextState: State, nextDelay: int)
      requires Valid()
      modifies this`errors, this`wifiPending, this`wifiRetried, this`ending
      ensures Go(Value(), nextState, nextDelay) == HandleWifi(config, old(Value()), wifi)
    {
      CheckWifi(wifi);
      nextState, nextDelay := WifiPending, config.wifiup;
      if wifiPending {
        wifiRetried := wifiRetried + 1;
        if wifiRetried - 1 > MAX_WIFIUP_RETRY_ATTEMPTS {
          nextState, nextDelay := Error, 0;
          ending := Console;
        }
      } else if WifiApNotFound in errors {
        nextState, nextDelay := RebootRequired, 30;
      } else {
        nextState, nextDelay := Telemetry, config.wifiup;
      }
    }

    method PollTelemetry() returns (nextState: State, nextDelay: int)
      requires Valid()
      modifies this`telemetryRetried
      ensures Go(Value(), nextState, nextDelay) == HandleTelemetry(config, old(Value()))
    {
      nextState, nextDelay := TelemetryPending, config.transmit;
      var finished := CheckTelemetry();
      if !finished {
        telemetryRetried := telemetryRetried + 1;
        if telemetryRetried - 1 > MAX_TELEMETRY_RETRY_ATTEMPTS {
          nextState, nextDelay := TelemetryFault, config.transmit;
        }
        return;
      }
      nextState, nextDelay := Done, 3;
    }
  }
}
