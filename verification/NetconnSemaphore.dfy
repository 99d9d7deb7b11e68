/** All callers of one netconn wait on one semaphore, `op_completed`: when a signal reaches the one it is meant for. */
module NetconnSemaphore {
  import opened NetconnProofs
  import opened NetconnSpec

  /** Whom the signals of a run may have woken, one after the other: each signal wakes one of those that have handed in
      a message by then and were not woken yet, whichever. */
  predicate MayWake(tcp: bool, actions: seq<Action>, woken: seq<Message>)
    requires forall a | a in actions :: WellTyped(a)
    decreases |actions|
  {
    if actions == [] then woken == []
    else
      var init := actions[..|actions| - 1];
      var n := |Run(Allocated(tcp), init).completions|;
      if |Run(Allocated(tcp), actions).completions| == n then MayWake(tcp, init, woken)
      else
        && |woken| == n + 1 && MayWake(tcp, init, woken[..n])
        && woken[n] in Submitted(actions) - multiset(woken[..n])
  }

  /** The callers the signals are meant for. */
  function Addressees(completions: seq<Completion>): (callers: seq<Message>)
    ensures |callers| == |completions|
    ensures forall i | 0 <= i < |completions| :: callers[i] == completions[i].message
  {
    if completions == [] then []
    else Addressees(completions[..|completions| - 1]) + [completions[|completions| - 1].message]
  }

  /** Whoever the semaphore wakes, it is always the right one. */
  ghost predicate SignalsReach(tcp: bool, actions: seq<Action>)
    requires forall a | a in actions :: WellTyped(a)
  {
    forall woken | MayWake(tcp, actions, woken) :: woken == Addressees(Run(Allocated(tcp), actions).completions)
  }

  /** No message is handed in while another caller waits for its answer. */
  predicate Serial(tcp: bool, actions: seq<Action>)
    requires forall a | a in actions :: WellTyped(a)
  {
    forall k | 0 <= k < |actions| && IsApi(actions[k]) :: Run(Allocated(tcp), actions[..k]).current == None
  }

  // ---- One step ----

  /** The last step of a run: what it adds to the answers, and that nobody gets lost. */
  lemma {:induction false} LastStep(tcp: bool, actions: seq<Action>)
    requires LegalRun(tcp, actions) && actions != []
    ensures var init, a := actions[..|actions| - 1], actions[|actions| - 1];
            && LegalRun(tcp, init) && Submitted(actions) == Submitted(init) + Submits(a) &&
            var s, s' := Run(Allocated(tcp), init), Run(Allocated(tcp), actions);
            && Inv(s) && Legal(s, a) && s' == Step(s, a) && AnswersAtMostOne(s, s')
            && Submitted(init) == Answered(s.completions) + Pending(s)
            && Submitted(actions) == Answered(s'.completions) + Pending(s')
  {
    var n := |actions| - 1;
    LegalPrefix(tcp, actions, n);
    RunConserves(tcp, actions[..n]);
    RunConserves(tcp, actions);
    hide Step, Inv, Pending, Answered, Submits, Allocated;
    StepKeeps(Run(Allocated(tcp), actions[..n]), actions[n]);
  }

  lemma {:induction false} AddresseesAnswered(completions: seq<Completion>)
    ensures multiset(Addressees(completions)) == Answered(completions)
    ensures |Answered(completions)| == |completions|
    decreases |completions|
  {
    if completions != [] {
      AddresseesAnswered(completions[..|completions| - 1]);
    }
  }

  lemma {:induction false} AddresseesNext(before: seq<Completion>, after: seq<Completion>)
    requires |after| == |before| + 1 && after[..|before|] == before
    ensures Addressees(after) == Addressees(before) + [after[|before|].message]
    ensures Answered(after) == Answered(before) + multiset{after[|before|].message}
  {
  }

  lemma Turn(before: multiset<Message>, answered: multiset<Message>, waiting: multiset<Message>, m: Message,
             extra: multiset<Message>, stillWaiting: multiset<Message>)
    requires before == answered + waiting && before + extra == answered + multiset{m} + stillWaiting
    ensures before + extra - answered == waiting + extra == stillWaiting + multiset{m}
  {
  }

  /** When a signal is given: whose turn it is, among whom the semaphore may choose. */
  lemma {:induction false} Choice(tcp: bool, actions: seq<Action>)
    requires LegalRun(tcp, actions) && actions != []
    requires |Run(Allocated(tcp), actions).completions| != |Run(Allocated(tcp), actions[..|actions| - 1]).completions|
    ensures var init := actions[..|actions| - 1];
            var s, s' := Run(Allocated(tcp), init), Run(Allocated(tcp), actions);
            var n := |s.completions|;
            && |s'.completions| == n + 1
            && Addressees(s'.completions) == Addressees(s.completions) + [s'.completions[n].message]
            && Submitted(actions) - multiset(Addressees(s.completions)) == Pending(s) + Submits(actions[|actions| - 1])
            && Pending(s) + Submits(actions[|actions| - 1]) == Pending(s') + multiset{s'.completions[n].message}
  {
    hide Run, LegalRun, Submitted, Submits, Pending, Step, Legal, Inv, Faithful, Answered, Addressees;
    LegalTyped(tcp, actions);
    LastStep(tcp, actions);
    var init, a := actions[..|actions| - 1], actions[|actions| - 1];
    var s, s' := Run(Allocated(tcp), init), Run(Allocated(tcp), actions);
    AddresseesNext(s.completions, s'.completions);
    AddresseesAnswered(s.completions);
    Turn(Submitted(init), Answered(s.completions), Pending(s), s'.completions[|s.completions|].message, Submits(a),
         Pending(s'));
  }

  lemma {:induction false} NoChoice(tcp: bool, actions: seq<Action>)
    requires LegalRun(tcp, actions) && actions != []
    requires |Run(Allocated(tcp), actions).completions| == |Run(Allocated(tcp), actions[..|actions| - 1]).completions|
    ensures Run(Allocated(tcp), actions).completions == Run(Allocated(tcp), actions[..|actions| - 1]).completions
  {
    LastStep(tcp, actions);
    hide Run, LegalRun, Submitted, Submits, Pending, Step, Legal, Inv, Faithful, Answered;
  }

  // ---- Serial use ----

  lemma SerialPrefix(tcp: bool, actions: seq<Action>, n: nat)
    requires (forall a | a in actions :: WellTyped(a)) && n <= |actions| && Serial(tcp, actions)
    ensures Serial(tcp, actions[..n])
  {
    hide Run;
    assert forall k | 0 <= k < n :: actions[..n][k] == actions[k] && actions[..n][..k] == actions[..k];
  }

  lemma {:induction false} NobodyYet(tcp: bool, woken: seq<Message>)
    ensures Run(Allocated(tcp), []).completions == [] && Addressees([]) == []
    ensures MayWake(tcp, [], woken) <==> woken == []
  {
  }

  lemma {:induction false} MayWakeLast(tcp: bool, actions: seq<Action>, woken: seq<Message>)
    requires (forall a | a in actions :: WellTyped(a)) && actions != []
    ensures var init := actions[..|actions| - 1];
            var n := |Run(Allocated(tcp), init).completions|;
            MayWake(tcp, actions, woken) <==>
            if |Run(Allocated(tcp), actions).completions| == n then MayWake(tcp, init, woken)
            else && |woken| == n + 1 && MayWake(tcp, init, woken[..n])
                 && woken[n] in Submitted(actions) - multiset(woken[..n])
  {
    hide Run, Submitted;
  }

  lemma SerialLast(tcp: bool, actions: seq<Action>)
    requires (forall a | a in actions :: WellTyped(a)) && actions != [] && Serial(tcp, actions)
    ensures IsApi(actions[|actions| - 1]) ==> Run(Allocated(tcp), actions[..|actions| - 1]).current == None
  {
    hide Run;
  }

  lemma {:induction false} SerialReaches(tcp: bool, actions: seq<Action>, woken: seq<Message>)
    requires LegalRun(tcp, actions) && Serial(tcp, actions) && MayWake(tcp, actions, woken)
    ensures woken == Addressees(Run(Allocated(tcp), actions).completions)
    decreases |actions|
  {
    hide Run, LegalRun, Submitted, Submits, Addressees, Serial, MayWake, Pending;
    LegalTyped(tcp, actions);
    if actions == [] {
      NobodyYet(tcp, woken);
    } else {
      SerialLast(tcp, actions);
      MayWakeLast(tcp, actions, woken);
      var b := |actions| - 1;
      LegalPrefix(tcp, actions, b);
      SerialPrefix(tcp, actions, b);
      var s, s' := Run(Allocated(tcp), actions[..b]), Run(Allocated(tcp), actions);
      if |s'.completions| == |s.completions| {
        SerialReaches(tcp, actions[..b], woken);
        NoChoice(tcp, actions);
      } else {
        var n := |s.completions|;
        SerialReaches(tcp, actions[..b], woken[..n]);
        Choice(tcp, actions);
        OneInTurn(s, actions[b], s', woken[n], s'.completions[n].message);
        assert woken == woken[..n] + [woken[n]];
      }
    }
  }

  lemma OneInTurn(s: State, a: Action, s': State, w: Message, m: Message)
    requires IsApi(a) ==> s.current == None
    requires w in Pending(s) + Submits(a) && Pending(s) + Submits(a) == Pending(s') + multiset{m}
    ensures w == m
  {
    assert m in Pending(s) + Submits(a);
  }

  // ---- Overlapping use ----

  /** The right caller can always be chosen. */
  lemma {:induction false} RightMayWake(tcp: bool, actions: seq<Action>)
    requires LegalRun(tcp, actions)
    ensures MayWake(tcp, actions, Addressees(Run(Allocated(tcp), actions).completions))
    decreases |actions|
  {
    if actions == [] {
      assert Run(Allocated(tcp), actions).completions == [];
    } else {
      hide Run, LegalRun, Submitted, Submits, Addressees, MayWake;
      var b := |actions| - 1;
      LegalTyped(tcp, actions);
      LegalPrefix(tcp, actions, b);
      var s, s' := Run(Allocated(tcp), actions[..b]), Run(Allocated(tcp), actions);
      RightMayWake(tcp, actions[..b]);
      MayWakeLast(tcp, actions, Addressees(s'.completions));
      if |s'.completions| == |s.completions| {
        NoChoice(tcp, actions);
      } else {
        Choice(tcp, actions);
        var n := |s.completions|;
        assert Addressees(s'.completions)[..n] == Addressees(s.completions);
        assert s'.completions[n].message in Pending(s) + Submits(actions[b]);
      }
    }
  }

  lemma OneMore(woken: seq<Message>, w: Message, submitted: multiset<Message>, extra: multiset<Message>)
    requires multiset(woken) <= submitted && w in submitted + extra - multiset(woken)
    ensures multiset(woken + [w]) <= submitted + extra
  {
  }

  lemma {:induction false} WokenWaited(tcp: bool, actions: seq<Action>, woken: seq<Message>)
    requires LegalRun(tcp, actions) && MayWake(tcp, actions, woken)
    ensures |woken| == |Run(Allocated(tcp), actions).completions| && multiset(woken) <= Submitted(actions)
    decreases |actions|
  {
    hide Run, LegalRun, Submitted, Submits, MayWake, Step, Legal, Inv, Pending, Answered, Faithful;
    LegalTyped(tcp, actions);
    if actions == [] {
      NobodyYet(tcp, woken);
    } else {
      var b := |actions| - 1;
      LegalPrefix(tcp, actions, b);
      LastStep(tcp, actions);
      MayWakeLast(tcp, actions, woken);
      var n := |Run(Allocated(tcp), actions[..b]).completions|;
      if |Run(Allocated(tcp), actions).completions| == n {
        WokenWaited(tcp, actions[..b], woken);
      } else {
        WokenWaited(tcp, actions[..b], woken[..n]);
        OneMore(woken[..n], woken[n], Submitted(actions[..b]), Submits(actions[b]));
        assert woken == woken[..n] + [woken[n]];
      }
    }
  }

  /** Whatever was chosen so far, the run can go on: there is always somebody to wake. */
  lemma {:induction false} GoesOn(tcp: bool, actions: seq<Action>, k: nat, woken: seq<Message>)
    returns (all: seq<Message>)
    requires LegalRun(tcp, actions) && k <= |actions| && MayWake(tcp, actions[..k], woken)
    ensures MayWake(tcp, actions, all) && woken <= all
    ensures Run(Allocated(tcp), actions[..k]).completions <= Run(Allocated(tcp), actions).completions
    decreases |actions|
  {
    hide Run, LegalRun, Submitted, Step, Legal, Inv, Pending, Answered, Submits, Faithful, MayWake;
    LegalTyped(tcp, actions);
    if k == |actions| {
      assert actions[..k] == actions;
      all := woken;
    } else {
      var b := |actions| - 1;
      assert actions[..b][..k] == actions[..k];
      LegalPrefix(tcp, actions, b);
      all := GoesOn(tcp, actions[..b], k, woken);
      WokenWaited(tcp, actions[..b], all);
      LastStep(tcp, actions);
      if |Run(Allocated(tcp), actions).completions| != |all| {
        var w := SomebodyWaits(tcp, actions, all);
        assert (all + [w])[..|all|] == all;
        MayWakeLast(tcp, actions, all + [w]);
        all := all + [w];
      } else {
        MayWakeLast(tcp, actions, all);
      }
    }
  }

  lemma {:induction false} SomebodyWaits(tcp: bool, actions: seq<Action>, woken: seq<Message>) returns (w: Message)
    requires LegalRun(tcp, actions) && actions != [] && multiset(woken) <= Submitted(actions[..|actions| - 1])
    requires |Run(Allocated(tcp), actions).completions| == |woken| + 1
    ensures w in Submitted(actions) - multiset(woken)
  {
    hide Run, LegalRun, Submitted, Answered, Addressees, Step, Inv, Legal, Pending, Submits, Faithful;
    LegalTyped(tcp, actions);
    LastStep(tcp, actions);
    AddresseesAnswered(Run(Allocated(tcp), actions).completions);
    var left := Submitted(actions) - multiset(woken);
    assert left + multiset(woken) == Submitted(actions);
    assert |left| > 0;
    w :| w in left;
  }

  /** A message handed in while another caller waits is answered on the spot, and that one goes on waiting. */
  lemma AnsweredOnTheSpot(s: State, a: Action)
    requires Inv(s) && Legal(s, a) && IsApi(a) && s.current.Some?
    ensures |Step(s, a).completions| == |s.completions| + 1
    ensures Step(s, a).completions[|s.completions|].message == a.m
  {
    hide WriteMore, CloseInternal;
  }

  lemma {:induction false} SubmittedGrows(actions: seq<Action>, k: nat)
    requires k <= |actions|
    ensures Submitted(actions[..k]) <= Submitted(actions)
    decreases |actions|
  {
    if k == |actions| {
      assert actions[..k] == actions;
    } else {
      SubmittedGrows(actions[..|actions| - 1], k);
      assert actions[..|actions| - 1][..k] == actions[..k];
    }
  }

  /** The signal meant for the second message can wake the first caller, who has not been answered. */
  lemma {:induction false} OverlapMisses(tcp: bool, actions: seq<Action>, k: nat) returns (woken: seq<Message>)
    requires LegalRun(tcp, actions) && k < |actions| && IsApi(actions[k])
    requires Run(Allocated(tcp), actions[..k]).current.Some? && forall m :: Submitted(actions)[m] <= 1
    ensures MayWake(tcp, actions, woken) && woken != Addressees(Run(Allocated(tcp), actions).completions)
  {
    hide Run, LegalRun, Submitted, Submits, Addressees, MayWake, Step, Legal, Inv, Pending, Answered, Faithful;
    var now := actions[..k + 1];
    assert now[..k] == actions[..k];
    LegalTyped(tcp, actions);
    LegalPrefix(tcp, actions, k + 1);
    LegalPrefix(tcp, now, k);
    var s := Run(Allocated(tcp), now[..k]);
    var n, w := |s.completions|, s.current.value;
    LastStep(tcp, now);
    AnsweredOnTheSpot(s, now[k]);
    Choice(tcp, now);
    SubmittedGrows(actions, k + 1);
    DistinctCallers(Submitted(now), multiset(Addressees(s.completions)), s, now[k]);
    RightMayWake(tcp, now[..k]);
    var wrong := Addressees(s.completions) + [w];
    assert wrong[..n] == Addressees(s.completions);
    MayWakeLast(tcp, now, wrong);
    woken := GoesOn(tcp, actions, k + 1, wrong);
    assert Addressees(Run(Allocated(tcp), actions).completions)[n] == now[k].m;
    assert woken[n] == w;
  }

  lemma DistinctCallers(submitted: multiset<Message>, answered: multiset<Message>, s: State, a: Action)
    requires submitted - answered == Pending(s) + Submits(a) && forall m :: submitted[m] <= 1
    requires s.current.Some? && IsApi(a)
    ensures s.current.value != a.m && s.current.value in submitted - answered
  {
    assert (submitted - answered)[a.m] <= 1;
  }

  /** Every signal reaches the caller it is meant for, whomever the semaphore chooses, exactly when no message is handed
      in while another caller waits. */
  lemma {:induction false} SignalsReachIffSerial(tcp: bool, actions: seq<Action>)
    requires LegalRun(tcp, actions) && forall m :: Submitted(actions)[m] <= 1
    ensures SignalsReach(tcp, actions) <==> Serial(tcp, actions)
  {
    if Serial(tcp, actions) {
      forall woken | MayWake(tcp, actions, woken)
        ensures woken == Addressees(Run(Allocated(tcp), actions).completions)
      {
        SerialReaches(tcp, actions, woken);
      }
    } else {
      var k :| 0 <= k < |actions| && IsApi(actions[k]) && Run(Allocated(tcp), actions[..k]).current != None;
      var woken := OverlapMisses(tcp, actions, k);
    }
  }
}
