/** How the ground sensor's runs end: exactly when in deep sleep, with a restart, or left to the console. */
module SensorEndings {
  import opened SensorSpec

  // ---- what happened in a run ----

  predicate Polls(m: Machine, e: Event, state: State) {
    e.Fires? && m.timer > 0 && m.state == state
  }

  /** What has happened to the sensor so far: whether the push was answered while it was pending, whether the station
      reported that there is no access point, how many polls found the push unanswered, and how many found the station
      busy. */
  datatype Story = Story(answered: bool, missing: bool, unanswered: nat, busy: nat)

  /** A finish or fault callback that names the handle of the pending push. */
  predicate AnswersPush(m: Machine, e: Event)
    requires |m.handles| == MAX_TELEMETRY
  {
    e.Calls? && m.state == TelemetryPending && m.ending == Running && e.handle == m.handles[0]
  }

  function Told(m: Machine, e: Event, s: Story): Story
    requires |m.handles| == |m.sent| == MAX_TELEMETRY
  {
    Story(s.answered || AnswersPush(m, e),
          s.missing || (Polls(m, e, WifiPending) && e.answers.wifi == NoApFound),
          s.unanswered + if Polls(m, e, TelemetryPending) && !s.answered then 1 else 0,
          s.busy + if Polls(m, e, WifiPending) && e.answers.wifi == Busy then 1 else 0)
  }

  function StoryOf(c: Config, m: Machine, es: seq<Event>, s: Story): Story
    requires |m.handles| == |m.sent| == MAX_TELEMETRY
    decreases |es|
  {
    if es == [] then s
    else
      StepSized(c, m, es[0]);
      StoryOf(c, Step(c, m, es[0]), es[1..], Told(m, es[0], s))
  }

  const NothingYet: Story := Story(false, false, 0, 0)

  // ---- where the story stands in each state ----

  /** Nothing has gone wrong up to telemetry. */
  predicate Joined(m: Machine, s: Story) {
    && !s.answered && !s.missing && s.unanswered == 0 && s.busy <= MAX_WIFIUP_RETRY_ATTEMPTS + 1
    && WifiApNotFound !in m.errors && m.telemetryRetried == 0
  }

  /** The push stayed unanswered, or there was no access point. */
  predicate Failed(s: Story) {
    && !s.answered && s.busy <= MAX_WIFIUP_RETRY_ATTEMPTS + 1
    && (s.missing || s.unanswered == MAX_TELEMETRY_RETRY_ATTEMPTS + 2)
  }

  /** The station was busy at every poll. */
  predicate NeverJoined(s: Story) {
    !s.answered && !s.missing && s.unanswered == 0 && s.busy == MAX_WIFIUP_RETRY_ATTEMPTS + 2
  }

  /** The state says what has happened. */
  predicate Fits(c: Config, m: Machine, s: Story) {
    match m.state
    case Boot => m.ending == Running && Joined(m, s) && s.busy == 0
    case Settle => m.ending == Running && Joined(m, s) && s.busy == 0
    case Sensors => m.ending == Running && Joined(m, s) && s.busy == 0
    case WifiPending => m.ending == Running && m.wifiPending && Joined(m, s) && s.busy == m.wifiRetried
    case Telemetry => m.ending == Running && Joined(m, s)
    case TelemetryPending =>
      && m.ending == Running && m.sent == [s.answered, true, true]
      && s.unanswered == m.telemetryRetried <= MAX_TELEMETRY_RETRY_ATTEMPTS + 1
      && !s.missing && s.busy <= MAX_WIFIUP_RETRY_ATTEMPTS + 1
    case TelemetryFault => m.ending == Running && Failed(s) && !s.missing
    case RebootRequired => m.ending == Running && Failed(s)
    case Done =>
      && s.answered && !s.missing && s.unanswered <= MAX_TELEMETRY_RETRY_ATTEMPTS + 1
      && s.busy <= MAX_WIFIUP_RETRY_ATTEMPTS + 1
      && (m.ending == Running || m.ending == if c.diag2 then Console else Asleep)
    case Error =>
      || (NeverJoined(s) && m.ending == Console)
      || (Failed(s) && m.ending == if c.diag2 then Console else Restarted)
  }

  lemma FiringFits(c: Config, m: Machine, a: Answers, s: Story)
    requires Inv(m) && Fits(c, m, s)
    ensures Fits(c, Step(c, m, Fires(a)), Told(m, Fires(a), s))
  {
  }

  lemma CallFits(c: Config, m: Machine, handle: int, s: Story)
    requires Inv(m) && Fits(c, m, s)
    ensures Fits(c, Step(c, m, Calls(handle)), Told(m, Calls(handle), s))
  {
  }

  lemma {:induction false} RunFits(c: Config, m: Machine, es: seq<Event>, s: Story)
    requires Positive(c) && Inv(m) && Fits(c, m, s)
    ensures Inv(Run(c, m, es)) && Fits(c, Run(c, m, es), StoryOf(c, m, es, s))
    decreases |es|
  {
    hide Inv, Fits, Step, Told;
    TimerArmed(m);
    if es != [] {
      StepSized(c, m, es[0]);
      StepCounts(c, m, es[0]);
      match es[0] {
        case Fires(a) => FiringFits(c, m, a, s);
        case Calls(handle) => CallFits(c, m, handle, s);
      }
      RunFits(c, Step(c, m, es[0]), es[1..], Told(m, es[0], s));
    }
  }

  // ---- the endings ----

  /** Every run that has ended, whatever the environment settings, the radio and the TCP stack did: the sensor sleeps
      exactly when the diagnostic button is off and a callback named the stored handle while the push was pending; it
      restarts exactly when the button is off and either the station reported a missing access point or all 22 polls
      found the push unanswered; and it is left to the console exactly when the station was busy at all 24 polls, or
      when the button kept it from sleeping or restarting. */
  lemma {:induction false} HowRunsEnd(settle: int, wifiup: int, diag2: bool, first: Answers, es: seq<Event>)
    ensures var c := Configured(settle, wifiup, diag2);
            var m, story := Run(c, Started(c, first), es), StoryOf(c, Started(c, first), es, NothingYet);
            m.ending != Running ==>
            && (m.ending == Asleep <==> !diag2 && story.answered)
            && (m.ending == Restarted <==> !diag2 && !story.answered && (story.missing || story.unanswered == 22))
            && (m.ending == Console <==>
                  story.busy == 24 || (diag2 && (story.answered || story.missing || story.unanswered == 22)))
  {
    var c := Configured(settle, wifiup, diag2);
    var start := Started(c, first);
    RunFits(c, start, es, NothingYet);
    if Run(c, start, es).ending != Running {
      Ended(c, Run(c, start, es), StoryOf(c, start, es, NothingYet));
    }
  }

  lemma Ended(c: Config, m: Machine, s: Story)
    requires Fits(c, m, s) && m.ending != Running
    ensures m.ending == Asleep <==> !c.diag2 && s.answered
    ensures m.ending == Restarted <==> !c.diag2 && !s.answered && (s.missing || s.unanswered == 22)
    ensures m.ending == Console <==> s.busy == 24 || (c.diag2 && (s.answered || s.missing || s.unanswered == 22))
  {
  }

  /** From every state in which a push is pending that a run can reach: a callback that names the stored handle, and the
      next two firings end the run, with whatever other callbacks come in between, in deep sleep or, with the diagnostic
      button, at the console. */
  lemma {:induction false} AnsweredPushEnds(settle: int, wifiup: int, diag2: bool, first: Answers, es: seq<Event>,
                                            rest: seq<Event>)
    ensures var c := Configured(settle, wifiup, diag2);
            var m := Run(c, Started(c, first), es);
            m.state == TelemetryPending && Firings(rest) >= 2 ==>
            var after := Run(c, m, [Calls(m.handles[0])] + rest);
            after.ending == if diag2 then Console else Asleep
  {
    var c := Configured(settle, wifiup, diag2);
    var start := Started(c, first);
    RunFits(c, start, es, NothingYet);
    var m, story := Run(c, start, es), StoryOf(c, start, es, NothingYet);
    if m.state == TelemetryPending && Firings(rest) >= 2 {
      var e := Calls(m.handles[0]);
      var m1 := Step(c, m, e);
      assert ([e] + rest)[1..] == rest;
      StepCounts(c, m, e);
      CallFits(c, m, m.handles[0], story);
      PendingRuns(m);
      SentEnds(c, m1, rest);
    }
  }

  lemma PendingRuns(m: Machine)
    requires Inv(m)
    ensures |m.handles| == |m.sent| == MAX_TELEMETRY && (m.timer > 0 <==> m.ending == Running)
  {
  }

  lemma {:induction false} SentEnds(c: Config, m: Machine, es: seq<Event>)
    requires Positive(c) && Inv(m) && m.ending == Running && false !in m.sent
    requires m.state == TelemetryPending || m.state == Done
    requires Firings(es) >= (if m.state == Done then 1 else 2)
    ensures Run(c, m, es).ending == if c.diag2 then Console else Asleep
    decreases |es|
  {
    var m1 := Step(c, m, es[0]);
    StepCounts(c, m, es[0]);
    if m1.ending != Running {
      EndedStays(c, m1, es[1..]);
    } else {
      SentEnds(c, m1, es[1..]);
    }
  }

  // ---- how long a run takes ----

  /** How long the sensor waits before it handles its next state: the settings for settling, joining and transmitting, a
      second for the sensors, three for the connection to close, half a minute at the console without an access point,
      and the long wait after a push that stayed unanswered. */
  lemma Delays(c: Config, m: Machine, a: Answers)
    requires Positive(c) && Inv(m) && m.timer > 0
    ensures var after := Step(c, m, Fires(a));
            after.ending == Running ==>
              after.timer == match after.state
                             case Sensors => 1
                             case WifiPending => c.wifiup
                             case Telemetry => c.wifiup
                             case TelemetryPending => c.transmit
                             case TelemetryFault => c.transmit
                             case Done => 3
                             case RebootRequired => if m.state == WifiPending then 30 else c.reboot
                             case _ => c.settle
  {
  }

  /** The seconds the timer has run for in these events. */
  function Awake(c: Config, m: Machine, es: seq<Event>): int
    requires |m.handles| == |m.sent| == MAX_TELEMETRY
    decreases |es|
  {
    if es == [] then 0
    else
      StepSized(c, m, es[0]);
      (if es[0].Fires? && m.timer > 0 then m.timer else 0) + Awake(c, Step(c, m, es[0]), es[1..])
  }

  function Waits(n: int, delay: int): int {
    n * delay
  }

  /** How long it can take from here, the wait that is on included. */
  function TimeLeft(c: Config, m: Machine): int {
    var report := 23 * c.transmit + c.reboot;
    if m.ending != Running then 0
    else m.timer + match m.state
                   case Settle => 1 + 25 * c.wifiup + report
                   case Sensors => 25 * c.wifiup + report
                   case WifiPending => Waits(24 - m.wifiRetried, c.wifiup) + report
                   case Telemetry => report
                   case TelemetryPending => Waits(22 - m.telemetryRetried, c.transmit) + c.reboot
                   case TelemetryFault => c.reboot
                   case Done => 0
                   case RebootRequired => 0
                   case _ => c.settle + 1 + 25 * c.wifiup + report
  }

  lemma TimePasses(c: Config, m: Machine, a: Answers)
    requires Positive(c) && Inv(m) && m.timer > 0 && c.reboot >= 30
    ensures 0 <= TimeLeft(c, Step(c, m, Fires(a))) <= TimeLeft(c, m) - m.timer
  {
    hide Waits;
    OneLess(24 - m.wifiRetried, c.wifiup);
    OneLess(22 - m.telemetryRetried, c.transmit);
    TwentyFour(c.wifiup);
    TwentyFour(c.transmit);
  }

  lemma OneLess(n: int, delay: int)
    ensures Waits(n, delay) == delay + Waits(n - 1, delay)
    ensures n >= 1 && delay > 0 ==> Waits(n, delay) >= delay && Waits(n - 1, delay) >= 0
  {
  }

  lemma TwentyFour(delay: int)
    ensures Waits(24, delay) == 24 * delay && Waits(22, delay) == 22 * delay
  {
  }

  lemma {:induction false} RunTakes(c: Config, m: Machine, es: seq<Event>)
    requires Positive(c) && Inv(m) && c.reboot >= 30
    ensures Awake(c, m, es) <= TimeLeft(c, m)
    decreases |es|
  {
    hide Step, TimeLeft, Inv;
    TimerArmed(m);
    StillTime(c, m);
    if es != [] {
      StepSized(c, m, es[0]);
      StepCounts(c, m, es[0]);
      RunTakes(c, Step(c, m, es[0]), es[1..]);
      match es[0] {
        case Fires(a) =>
          if m.timer > 0 {
            TimePasses(c, m, a);
          } else {
            NothingFires(c, m, a);
          }
        case Calls(handle) => CallTakesNoTime(c, m, handle);
      }
    }
  }

  lemma StillTime(c: Config, m: Machine)
    requires Positive(c) && Inv(m)
    ensures TimeLeft(c, m) >= 0
  {
    OneLess(24 - m.wifiRetried, c.wifiup);
    OneLess(22 - m.telemetryRetried, c.transmit);
  }

  lemma NothingFires(c: Config, m: Machine, a: Answers)
    requires |m.handles| == |m.sent| == MAX_TELEMETRY && m.timer <= 0
    ensures Step(c, m, Fires(a)) == m
  {
  }

  lemma CallTakesNoTime(c: Config, m: Machine, handle: int)
    requires |m.handles| == |m.sent| == MAX_TELEMETRY
    ensures TimeLeft(c, Step(c, m, Calls(handle))) == TimeLeft(c, m)
  {
  }

  /** The sensor is never awake for longer than the settling time, 25 waits for the station, and 1824 seconds: one for
      the sensors, 23 for the push, and half an hour before a restart. Settings that are not positive give way to three
      seconds and one. */
  lemma {:induction false} AwakeAtMost(settle: int, wifiup: int, diag2: bool, first: Answers, es: seq<Event>)
    ensures var c := Configured(settle, wifiup, diag2);
            var settling, joining := if settle > 0 then settle else 3, if wifiup > 0 then wifiup else 1;
            c.settle == settling && c.wifiup == joining && c.transmit == 1
            && Awake(c, Started(c, first), es) <= settling + 25 * joining + 1824
  {
    var c := Configured(settle, wifiup, diag2);
    RunTakes(c, Started(c, first), es);
  }

  /** A poll of the station records a failed connection or a missing access point, and nothing else touches them. */
  lemma FaultsRecorded(c: Config, m: Machine, e: Event)
    requires |m.handles| == |m.sent| == MAX_TELEMETRY
    ensures var after := Step(c, m, e);
            && (WifiConnect in after.errors <==>
                  WifiConnect in m.errors || (Polls(m, e, WifiPending) && e.answers.wifi == ConnectFail))
            && (WifiApNotFound in after.errors <==>
                  WifiApNotFound in m.errors || (Polls(m, e, WifiPending) && e.answers.wifi == NoApFound))
  {
  }
}
