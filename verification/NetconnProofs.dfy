/** What every run of a netconn keeps. */
module NetconnProofs {
  import opened Common
  import opened NetconnSpec

  /** Which handler owns the caller that is waiting, and what has been written for it. */
  predicate Inv(s: State) {
    && (s.phase == WRITE ==> InWrite(s) && s.accepted == s.current.value.request.data[..s.writeOffset])
    && (s.phase == CLOSE ==> InClose(s))
    && (s.phase == CONNECT ==> s.hasPcb && (s.inNonblockingConnect <==> s.current.None?))
    && (s.phase == CONNECT && s.current.Some? ==> s.current.value.request.Connect?)
    && (s.phase == NONE || s.phase == LISTEN ==> s.current.None?)
    && (s.phase == LISTEN ==> s.hasPcb)
    && (s.inNonblockingConnect ==> s.phase == CONNECT || s.gone)
    && (!s.tcp ==> s.phase == NONE)
  }

  /** What the stack and the API's users owe: no call after the delete, the connected
      callback only while connecting, errors that are errors, no delete during a blocking connect; and
      closing a connection that is still being opened succeeds, as it does in this tree (TcpClose). */
  predicate Legal(s: State, a: Action) {
    && WellTyped(a) && !s.gone
    && (a.Connected? ==> s.phase == CONNECT)
    && (a.Err? ==> a.err != ERR_OK)
    && (a.ApiDelConn? && s.phase == CONNECT ==> s.inNonblockingConnect && a.closeErr == ERR_OK)
  }

  function Pending(s: State): multiset<Message> {
    if s.current.Some? then multiset{s.current.value} else multiset{}
  }

  function Answered(completions: seq<Completion>): multiset<Message> {
    if completions == [] then multiset{}
    else Answered(completions[..|completions| - 1]) + multiset{completions[|completions| - 1].message}
  }

  function Submits(a: Action): multiset<Message> {
    if IsApi(a) then multiset{a.m} else multiset{}
  }

  function Submitted(actions: seq<Action>): multiset<Message> {
    if actions == [] then multiset{}
    else Submitted(actions[..|actions| - 1]) + Submits(actions[|actions| - 1])
  }

  /** The answer tells the truth about the bytes: all of them on success, a prefix otherwise. */
  predicate Faithful(c: Completion) {
    if c.message.request.Write? then
      c.accepted <= c.message.request.data && (c.err == ERR_OK ==> c.accepted == c.message.request.data)
    else c.accepted == []
  }

  lemma AnsweredNext(cs: seq<Completion>, c: Completion)
    ensures Answered(cs + [c]) == Answered(cs) + multiset{c.message}
  {
    assert (cs + [c])[..|cs|] == cs;
  }

  /** An action answers at most one message, and the answer is truthful. */
  predicate AnswersAtMostOne(s: State, s': State) {
    var n := |s.completions|;
    || s'.completions == s.completions
    || (|s'.completions| == n + 1 && s'.completions[..n] == s.completions && Faithful(s'.completions[n]))
  }

  /** From `s` to `s'` the invariant is kept, and whoever waited or was handed in
      (`extra`) has been answered or still waits. */
  predicate Kept(s: State, extra: multiset<Message>, s': State) {
    && Inv(s') && AnswersAtMostOne(s, s')
    && Answered(s'.completions) + Pending(s') == Answered(s.completions) + Pending(s) + extra
  }

  /** A message answered on the spot. */
  lemma OneShot(s: State, m: Message, err: int, s': State)
    requires Faithful(Completion(m, err, []))
    requires s'.completions == s.completions + [Completion(m, err, [])]
    requires s'.current == s.current && Inv(s')
    ensures Kept(s, multiset{m}, s')
  {
    AnsweredNext(s.completions, Completion(m, err, []));
  }

  /** The waiting caller is answered. */
  lemma Released(s: State, extra: multiset<Message>, c: Completion, s': State)
    requires Faithful(c) && multiset{c.message} == Pending(s) + extra
    requires s'.completions == s.completions + [c]
    requires s'.current == None && Inv(s')
    ensures Kept(s, extra, s')
  {
    AnsweredNext(s.completions, c);
  }

  /** The writer is answered with the bytes that were taken for it. */
  lemma WriteFinished(s0: State, extra: multiset<Message>, s: State, s1: State, err: int)
    requires Inv(s) && InWrite(s)
    requires s1 == s.(accepted := s1.accepted, writeOffset := s1.writeOffset, checkWritespace := s1.checkWritespace)
    requires Faithful(Completion(s.current.value, err, s1.accepted))
    requires s0.completions == s.completions && Pending(s0) + extra == Pending(s)
    ensures Kept(s0, extra, FinishWrite(s1, err))
  {
    hide Answered, Faithful, Kept;
    Released(s0, extra, Completion(s.current.value, err, s1.accepted), FinishWrite(s1, err));
  }

  /** The writer goes on waiting with more bytes taken. */
  lemma WriteAdvanced(s0: State, extra: multiset<Message>, s: State, len: nat)
    requires Inv(s) && InWrite(s) && s.writeOffset + len < |s.current.value.request.data|
    requires s0.completions == s.completions && Pending(s0) + extra == Pending(s)
    ensures Kept(s0, extra, Concluded(Taken(s, len, ERR_OK), len, ERR_OK))
  {
    hide Answered;
    var data, offset := s.current.value.request.data, s.writeOffset + len;
    assert data[..s.writeOffset] + data[s.writeOffset..offset] == data[..offset];
  }

  /** The last bytes have been taken. */
  lemma WriteCompleted(s0: State, extra: multiset<Message>, s: State, len: nat)
    requires Inv(s) && InWrite(s) && s.writeOffset + len == |s.current.value.request.data|
    requires s0.completions == s.completions && Pending(s0) + extra == Pending(s)
    ensures Kept(s0, extra, Concluded(Taken(s, len, ERR_OK), len, ERR_OK))
  {
    hide Answered, Kept;
    var data := s.current.value.request.data;
    assert data[..s.writeOffset] + data[s.writeOffset..|data|] == data;
    WriteFinished(s0, extra, s, Taken(s, len, ERR_OK).(writeOffset := 0), ERR_OK);
  }

  /** Nothing has been taken: the writer is answered with an error, or waits for room. */
  lemma WriteRefused(s0: State, extra: multiset<Message>, s: State, len: nat, err: int)
    requires Inv(s) && InWrite(s) && s.writeOffset + len <= |s.current.value.request.data| && err != ERR_OK
    requires s0.completions == s.completions && Pending(s0) + extra == Pending(s)
    ensures Kept(s0, extra, Concluded(Taken(s, len, err), len, err))
  {
    hide Answered, FinishWrite;
    if DontBlock(s, s.current.value) && err == ERR_MEM {
      WriteFinished(s0, extra, s, s.(checkWritespace := true), ERR_WOULDBLOCK);
    } else if err != ERR_MEM {
      WriteFinished(s0, extra, s, s, err);
    }
  }

  lemma WriteMoreKeeps(s0: State, extra: multiset<Message>, s: State, env: WriteEnv)
    requires Inv(s) && InWrite(s)
    requires s0.completions == s.completions && Pending(s0) + extra == Pending(s)
    ensures Kept(s0, extra, WriteMore(s, env))
  {
    hide Answered, Kept, Concluded, Taken, Offered, Pending, Inv;
    var data, len := s.current.value.request.data, Offered(s, env);
    var err := if DontBlock(s, s.current.value) && len < |data| then ERR_MEM else env.writeErr;
    if err != ERR_OK {
      WriteRefused(s0, extra, s, len, err);
    } else if s.writeOffset + len == |data| {
      WriteCompleted(s0, extra, s, len);
    } else {
      WriteAdvanced(s0, extra, s, len);
    }
  }

  lemma CloseInternalKeeps(s0: State, extra: multiset<Message>, s: State, closeErr: int)
    requires InClose(s) && s.tcp && s.phase == CLOSE
    requires s.inNonblockingConnect ==> closeErr == ERR_OK && s.current.value.request.Delete?
    requires s0.completions == s.completions && Pending(s0) + extra == Pending(s)
    ensures Kept(s0, extra, CloseInternal(s, closeErr))
  {
    hide Answered;
    if closeErr == ERR_OK {
      Released(s0, extra, Completion(s.current.value, ERR_OK, []), CloseInternal(s, closeErr));
    }
  }

  lemma ContinueKeeps(s: State, env: CallbackEnv)
    requires Inv(s) && !s.gone
    ensures Kept(s, multiset{}, Continue(s, env))
  {
    hide Answered, WriteMore, CloseInternal;
    if InWrite(s) {
      WriteMoreKeeps(s, multiset{}, s, env.write);
    } else if InClose(s) {
      CloseInternalKeeps(s, multiset{}, s, env.closeErr);
    }
  }

  lemma DoWriteKeeps(s: State, m: Message, env: WriteEnv)
    requires Inv(s) && !s.gone && m.request.Write? && m.request.data != []
    ensures Kept(s, multiset{m}, DoWrite(s, m, env))
  {
    hide Answered, WriteMore, Kept;
    var s' := DoWrite(s, m, env);
    if ErrIsFatal(s.lastErr) {
      OneShot(s, m, s.lastErr, s');
    } else if !s.tcp {
      OneShot(s, m, ERR_VAL, s');
    } else if s.phase != NONE {
      OneShot(s, m, ERR_INPROGRESS, s');
    } else if s.hasPcb {
      WriteMoreKeeps(s, multiset{m}, s.(phase := WRITE, current := Some(m), writeOffset := 0, accepted := []), env);
    } else {
      OneShot(s, m, ERR_CONN, s');
    }
  }

  lemma DoCloseKeeps(s: State, m: Message, closeErr: int)
    requires Inv(s) && !s.gone && m.request.Close?
    ensures Kept(s, multiset{m}, DoClose(s, m, closeErr))
  {
    hide Answered, CloseInternal, Kept;
    var s' := DoClose(s, m, closeErr);
    if s.phase != NONE && s.phase != LISTEN {
      OneShot(s, m, ERR_INPROGRESS, s');
    } else if s.hasPcb && s.tcp {
      if !(m.request.shutRx && m.request.shutTx) && s.phase == LISTEN {
        OneShot(s, m, ERR_CONN, s');
      } else {
        CloseInternalKeeps(s, multiset{m}, s.(phase := CLOSE, current := Some(m)), closeErr);
      }
    } else {
      OneShot(s, m, ERR_VAL, s');
    }
  }

  lemma DoDelConnKeeps(s: State, m: Message, closeErr: int)
    requires Inv(s) && !s.gone && m.request.Delete?
    requires s.phase == CONNECT ==> s.inNonblockingConnect && closeErr == ERR_OK
    ensures Kept(s, multiset{m}, DoDelConn(s, m, closeErr))
  {
    hide Answered, CloseInternal, Kept;
    var s' := DoDelConn(s, m, closeErr);
    if s.phase != NONE && s.phase != LISTEN && s.phase != CONNECT {
      OneShot(s, m, ERR_INPROGRESS, s');
    } else if s.hasPcb && s.tcp {
      CloseInternalKeeps(s, multiset{m}, s.(phase := CLOSE, current := Some(m)), closeErr);
    } else {
      OneShot(s, m, m.err, s');
    }
  }

  lemma DoConnectKeeps(s: State, m: Message, connectErr: int)
    requires Inv(s) && !s.gone && m.request.Connect?
    ensures Kept(s, multiset{m}, DoConnect(s, m, connectErr))
  {
    hide Answered;
    var s' := DoConnect(s, m, connectErr);
    if !s.hasPcb {
      OneShot(s, m, ERR_CLSD, s');
    } else if !s.tcp {
      OneShot(s, m, connectErr, s');
    } else if s.phase != NONE {
      OneShot(s, m, ERR_ISCONN, s');
    } else if connectErr != ERR_OK {
      OneShot(s, m, connectErr, s');
    } else if s.nonBlocking {
      OneShot(s, m, ERR_INPROGRESS, s');
    }
  }

  lemma ListenInv(s: State, m: Message, env: ListenEnv)
    requires Inv(s)
    ensures Inv(DoListen(s, m, env))
  {
    hide Inv, ErrIsFatal, Signal;
    var s' := DoListen(s, m, env);
    if ErrIsFatal(s.lastErr) || !(s.hasPcb && s.tcp && s.phase == NONE) {
      SignalInv(s, m, if ErrIsFatal(s.lastErr) then s.lastErr else ERR_CONN);
    } else {
      match env
      case NoListenPcb => SignalInv(s, m, ERR_MEM);
      case NoMailbox(err) => IdleInv(s, m, err);
      case Listening => IdleInv(s, m, ERR_OK);
    }
  }

  lemma SignalInv(s: State, m: Message, err: int)
    requires Inv(s)
    ensures Inv(Signal(s, m, err, []))
  {
  }

  /** An idle netconn may lose its pcb, or start to listen on it. */
  lemma IdleInv(s: State, m: Message, err: int)
    requires Inv(s) && s.phase == NONE && s.tcp
    ensures Inv(Signal(s, m, err, []).(hasPcb := false))
    ensures s.hasPcb ==> Inv(Signal(s, m, err, []).(phase := LISTEN))
  {
  }

  lemma NoBytes(m: Message, err: int)
    requires !m.request.Write?
    ensures Faithful(Completion(m, err, []))
  {
  }

  lemma DoListenKeeps(s: State, m: Message, env: ListenEnv)
    requires Inv(s) && !s.gone && m.request.Listen?
    ensures Kept(s, multiset{m}, DoListen(s, m, env))
  {
    ListenInv(s, m, env);
    hide Answered, Kept, Faithful, ErrIsFatal, Inv;
    var s' := DoListen(s, m, env);
    NoBytes(m, s'.completions[|s.completions|].err);
    OneShot(s, m, s'.completions[|s.completions|].err, s');
  }

  lemma DoConnectedKeeps(s: State, err: int)
    requires Inv(s) && !s.gone && s.phase == CONNECT
    ensures Kept(s, multiset{}, DoConnected(s, err))
  {
    hide Answered;
    if s.current.Some? {
      Released(s, multiset{}, Completion(s.current.value, err, []), DoConnected(s, err));
    }
  }

  lemma ErrTcpKeeps(s: State, err: int)
    requires Inv(s) && !s.gone && (err == ERR_OK ==> s.phase != WRITE)
    ensures Kept(s, multiset{}, ErrTcp(s, err))
  {
    hide Answered;
    if s.current.Some? {
      var accepted := if s.phase == WRITE then s.accepted else [];
      Released(s, multiset{}, Completion(s.current.value, err, accepted), ErrTcp(s, err));
    }
  }

  /** Flags that no waiting caller depends on. */
  lemma FlagsKept(s: State, extra: multiset<Message>, s1: State, s': State)
    requires Kept(s, extra, s1)
    requires s' == s1.(checkWritespace := s'.checkWritespace, nonBlocking := s'.nonBlocking, lastErr := s'.lastErr)
    ensures Kept(s, extra, s')
  {
    hide Answered;
  }

  lemma NothingKept(s: State)
    requires Inv(s)
    ensures Kept(s, multiset{}, s)
  {
    hide Answered;
  }

  lemma ApiKeeps(s: State, a: Action)
    requires Inv(s) && Legal(s, a) && IsApi(a)
    ensures Kept(s, Submits(a), Step(s, a))
  {
    hide DoWrite, DoClose, DoDelConn, DoConnect, DoListen, DoConnected, Continue, ErrTcp, Answered, Kept, Inv;
    match a
    case ApiWrite(m, env) => DoWriteKeeps(s, m, env);
    case ApiClose(m, closeErr) => DoCloseKeeps(s, m, closeErr);
    case ApiDelConn(m, closeErr) => DoDelConnKeeps(s, m, closeErr);
    case ApiConnect(m, connectErr) => DoConnectKeeps(s, m, connectErr);
    case ApiListen(m, env) => DoListenKeeps(s, m, env);
    case ApiNewConn(m, pcbOk) => DoNewConnKeeps(s, m, pcbOk);
    case ApiSimple(m, err) => SimpleKeeps(s, m, err);
  }

  lemma DoNewConnKeeps(s: State, m: Message, pcbOk: bool)
    requires Inv(s) && m.request.New?
    ensures Kept(s, multiset{m}, DoNewConn(s, m, pcbOk))
  {
    hide Answered, Kept;
    OneShot(s, m, if s.hasPcb || pcbOk then ERR_OK else ERR_MEM, DoNewConn(s, m, pcbOk));
  }

  lemma SimpleKeeps(s: State, m: Message, err: int)
    requires Inv(s) && m.request.Simple?
    ensures Kept(s, multiset{m}, Signal(s, m, err, []))
  {
    hide Answered, Kept;
    OneShot(s, m, err, Signal(s, m, err, []));
  }

  lemma SentKeeps(s: State, env: CallbackEnv)
    requires Inv(s) && !s.gone
    ensures Kept(s, multiset{}, SentTcp(s, env)) && Kept(s, multiset{}, PollTcp(s, env))
  {
    hide Continue, Answered, Kept, Inv;
    ContinueKeeps(s, env);
    FlagsKept(s, multiset{}, Continue(s, env), SentTcp(s, env));
    FlagsKept(s, multiset{}, Continue(s, env), PollTcp(s, env));
  }

  lemma CallbackKeeps(s: State, a: Action)
    requires Inv(s) && Legal(s, a) && !IsApi(a)
    ensures Kept(s, multiset{}, Step(s, a))
  {
    hide DoConnected, SentTcp, PollTcp, ErrTcp, Answered, Kept, Inv, Faithful;
    NothingKept(s);
    match a
    case Connected(err) => DoConnectedKeeps(s, err);
    case Sent(env) => SentKeeps(s, env);
    case Poll(env) => SentKeeps(s, env);
    case Err(err) => ErrTcpKeeps(s, err);
    case SetNonBlocking(_) => FlagsKept(s, multiset{}, s, Step(s, a));
    case ReportErr(_) => FlagsKept(s, multiset{}, s, Step(s, a));
  }

  /** Every legal action keeps the invariant and loses or doubles no answer. */
  lemma StepKeeps(s: State, a: Action)
    requires Inv(s) && Legal(s, a)
    ensures Kept(s, Submits(a), Step(s, a))
  {
    hide Step, Legal, Kept, Inv;
    if IsApi(a) {
      ApiKeeps(s, a);
    } else {
      CallbackKeeps(s, a);
    }
  }

  // ---- Runs ----

  /** A run of the machine from a fresh netconn in which everybody keeps their side. */
  predicate LegalRun(tcp: bool, actions: seq<Action>) {
    && (forall a | a in actions :: WellTyped(a))
    && (forall n | 0 <= n < |actions| :: Legal(Run(Allocated(tcp), actions[..n]), actions[n]))
  }

  lemma LegalTyped(tcp: bool, actions: seq<Action>)
    requires LegalRun(tcp, actions)
    ensures forall a | a in actions :: WellTyped(a)
  {
  }

  lemma LegalPrefix(tcp: bool, actions: seq<Action>, k: nat)
    requires LegalRun(tcp, actions) && k <= |actions|
    ensures LegalRun(tcp, actions[..k]) && forall a | a in actions[..k] :: WellTyped(a)
  {
    hide Legal, Run;
    assert forall n | 0 <= n < k :: actions[..k][n] == actions[n] && actions[..k][..n] == actions[..n];
  }

  /** Over every legal run: each message handed in has been answered exactly once,
      or is the one that still waits; every answer is truthful. */
  lemma {:induction false} RunConserves(tcp: bool, actions: seq<Action>)
    requires LegalRun(tcp, actions)
    ensures var s := Run(Allocated(tcp), actions);
            && Inv(s)
            && Submitted(actions) == Answered(s.completions) + Pending(s)
            && (forall c | c in s.completions :: Faithful(c))
    ensures Sound(Submitted(actions), Run(Allocated(tcp), actions))
    decreases |actions|
  {
    hide Step, Legal, Inv, Faithful, Pending, Answered, Allocated;
    if actions == [] {
      AllocatedSound(tcp);
    } else {
      var n := |actions| - 1;
      var init := actions[..n];
      assert Submitted(actions) == Submitted(init) + Submits(actions[n]);
      LegalPrefix(tcp, actions, n);
      LegalLast(tcp, actions);
      hide Run, LegalRun, Submitted, Submits, Sound;
      RunConserves(tcp, init);
      SoundStep(Submitted(init), Run(Allocated(tcp), init), actions[n]);
    }
    hide Run, Submitted;
  }

  lemma {:induction false} LegalLast(tcp: bool, actions: seq<Action>)
    requires LegalRun(tcp, actions) && actions != []
    ensures var init, a := actions[..|actions| - 1], actions[|actions| - 1];
            && Legal(Run(Allocated(tcp), init), a)
            && Run(Allocated(tcp), actions) == Step(Run(Allocated(tcp), init), a)
  {
    hide Step, Legal, Allocated;
  }

  /** The state accounts for exactly the messages submitted. */
  predicate Sound(submitted: multiset<Message>, s: State) {
    Inv(s) && submitted == Answered(s.completions) + Pending(s) && forall c | c in s.completions :: Faithful(c)
  }

  lemma AllocatedSound(tcp: bool)
    ensures Sound(multiset{}, Allocated(tcp))
  {
  }

  lemma SoundStep(submitted: multiset<Message>, s: State, a: Action)
    requires Sound(submitted, s) && Legal(s, a)
    ensures Sound(submitted + Submits(a), Step(s, a))
  {
    hide Step, Inv, Faithful, Pending, Answered;
    StepKeeps(s, a);
    var n, cs := |s.completions|, Step(s, a).completions;
    if |cs| == n + 1 && cs[..n] == s.completions {
      assert cs == s.completions + [cs[n]];
    }
  }

  lemma {:induction false} AnsweredCounts(completions: seq<Completion>, i: nat, j: nat)
    requires i < j < |completions| && completions[i].message == completions[j].message
    ensures Answered(completions)[completions[i].message] >= 2
    decreases |completions|
  {
    var n := |completions| - 1;
    if j < n {
      AnsweredCounts(completions[..n], i, j);
    } else {
      AnsweredOnce(completions[..n], i);
    }
  }

  lemma {:induction false} AnsweredOnce(completions: seq<Completion>, i: nat)
    requires i < |completions|
    ensures Answered(completions)[completions[i].message] >= 1
    decreases |completions|
  {
    if i < |completions| - 1 { AnsweredOnce(completions[..|completions| - 1], i); }
  }

  /** No interleaving answers a message twice, or while it is still being served. */
  lemma {:induction false} NobodyAnsweredTwice(tcp: bool, actions: seq<Action>)
    requires LegalRun(tcp, actions)
    requires forall m :: Submitted(actions)[m] <= 1
    ensures var s := Run(Allocated(tcp), actions);
            && (forall i: nat, j: nat | i < j < |s.completions| :: s.completions[i].message != s.completions[j].message)
            && (s.current.Some? ==> forall c | c in s.completions :: c.message != s.current.value)
  {
    RunConserves(tcp, actions);
    var s := Run(Allocated(tcp), actions);
    hide Run, Answered, Submitted;
    forall i: nat, j: nat | i < j < |s.completions|
      ensures s.completions[i].message != s.completions[j].message
    {
      assert Submitted(actions)[s.completions[i].message] <= 1;
      if s.completions[i].message == s.completions[j].message {
        AnsweredCounts(s.completions, i, j);
      }
    }
    if s.current.Some? {
      forall c | c in s.completions
        ensures c.message != s.current.value
      {
        var i: nat :| i < |s.completions| && s.completions[i] == c;
        AnsweredOnce(s.completions, i);
        assert Submitted(actions)[c.message] == Answered(s.completions)[c.message] + Pending(s)[c.message];
      }
    }
  }

  // ---- Writes ----

  /** How a write that must not block is answered. */
  function Verdict(data: seq<bv8>, env: WriteEnv): int {
    if |data| > Min(MAX_U16, env.sndbuf) || env.writeErr == ERR_MEM then ERR_WOULDBLOCK else env.writeErr
  }

  /** The write handler's turn for such a message: the whole buffer is taken, or not a byte. */
  lemma NonblockingTurn(s: State, m: Message, env: WriteEnv)
    requires s.phase == WRITE && s.hasPcb && s.current == Some(m) && s.writeOffset == 0 && s.accepted == []
    requires m.request.Write? && m.request.data != [] && DontBlock(s, m)
    ensures var s', err := WriteMore(s, env), Verdict(m.request.data, env);
            && s'.completions == s.completions + [Completion(m, err, if err == ERR_OK then m.request.data else [])]
            && s'.current == None && s'.phase == NONE
  {
    var data, len := m.request.data, Offered(s, env);
    OfferedFirst(s, env);
    hide Offered, Min, Verdict;
    var err := if len < |data| then ERR_MEM else env.writeErr;
    assert Verdict(data, env) == if err == ERR_MEM then ERR_WOULDBLOCK else err by {
      VerdictOf(data, env);
    }
    if err == ERR_OK {
      assert data[0..|data|] == data && [] + data == data;
    }
  }

  lemma VerdictOf(data: seq<bv8>, env: WriteEnv)
    ensures var err := if |data| > Min(MAX_U16, env.sndbuf) then ERR_MEM else env.writeErr;
            Verdict(data, env) == if err == ERR_MEM then ERR_WOULDBLOCK else err
  {
  }

  lemma OfferedFirst(s: State, env: WriteEnv)
    requires s.current.Some? && s.current.value.request.Write? && s.writeOffset == 0
    ensures Offered(s, env) < |s.current.value.request.data| <==>
            |s.current.value.request.data| > Min(MAX_U16, env.sndbuf)
  {
  }

  /** A write that must not block is decided before its handler returns: the whole
      buffer is taken, or not a byte and an error is answered. */
  lemma NonblockingWriteIsAllOrNothing(s: State, m: Message, env: WriteEnv)
    requires Inv(s) && !s.gone && m.request.Write? && m.request.data != [] && DontBlock(s, m)
    ensures var s' := DoWrite(s, m, env);
            exists c ::
              && s'.completions == s.completions + [c] && c.message == m
              && (if c.err == ERR_OK then c.accepted == m.request.data else c.accepted == [])
              && s'.current == s.current && s'.phase == s.phase
    ensures s.phase == NONE && s.hasPcb && s.tcp && !ErrIsFatal(s.lastErr) ==>
              (DoWrite(s, m, env).completions[|s.completions|].err == ERR_OK <==>
                 |m.request.data| <= Min(MAX_U16, env.sndbuf) && env.writeErr == ERR_OK)
  {
    hide WriteMore, Min, Offered;
    var s' := DoWrite(s, m, env);
    if s.phase == NONE && s.hasPcb && s.tcp && !ErrIsFatal(s.lastErr) {
      NonblockingTurn(s.(phase := WRITE, current := Some(m), writeOffset := 0, accepted := []), m, env);
    }
    assert s'.completions == s.completions + [s'.completions[|s.completions|]];
  }

  /** A blocking write moves on by what the send buffer takes, at least one byte if there is any room. */
  lemma WriteProgress(s: State, env: WriteEnv)
    requires Inv(s) && InWrite(s) && !DontBlock(s, s.current.value)
    requires env.writeErr == ERR_OK && env.sndbuf > 0
    ensures var s' := WriteMore(s, env);
            var data := s.current.value.request.data;
            if s'.phase == WRITE then
              && s'.writeOffset == s.writeOffset + Offered(s, env) > s.writeOffset
              && s' == s.(writeOffset := s'.writeOffset, accepted := data[..s'.writeOffset])
            else
              s'.completions == s.completions + [Completion(s.current.value, ERR_OK, data)]
  {
    var data, offset := s.current.value.request.data, s.writeOffset + Offered(s, env);
    assert data[..s.writeOffset] + data[s.writeOffset..offset] == data[..offset];
    assert data[..|data|] == data;
  }

  /** Room for at least one byte, and a tcp_write that takes it. */
  predicate Accepting(env: CallbackEnv) {
    env.write.writeErr == ERR_OK && env.write.sndbuf > 0
  }

  function SentRun(s: State, envs: seq<CallbackEnv>): State
    decreases |envs|
  {
    if envs == [] then s else SentRun(SentTcp(s, envs[0]), envs[1..])
  }

  /** As many accepting sent callbacks as there are bytes left release the writer,
      with success, and the peer has been given the whole buffer in order. */
  lemma {:induction false} BlockingWriteCompletes(s: State, envs: seq<CallbackEnv>) returns (k: nat)
    requires Inv(s) && InWrite(s) && !DontBlock(s, s.current.value)
    requires (forall e | e in envs :: Accepting(e))
    requires |envs| >= |s.current.value.request.data| - s.writeOffset
    ensures 0 < k <= |s.current.value.request.data| - s.writeOffset
    ensures var s' := SentRun(s, envs[..k]);
            var m := s.current.value;
            s'.phase == NONE && s'.completions == s.completions + [Completion(m, ERR_OK, m.request.data)]
    decreases |envs|
  {
    hide SentTcp, Inv, DontBlock, Accepting;
    var e := envs[0];
    assert e in envs && Accepting(e);
    SentProgress(s, e);
    var s1 := SentTcp(s, e);
    if s1.phase == WRITE {
      var k1 := BlockingWriteCompletes(s1, envs[1..]);
      k := k1 + 1;
      assert envs[..k][0] == e && envs[..k][1..] == envs[1..][..k1];
    } else {
      k := 1;
      assert envs[..1][0] == e && envs[..1][1..] == [];
    }
  }

  lemma SentProgress(s: State, e: CallbackEnv)
    requires Inv(s) && InWrite(s) && !DontBlock(s, s.current.value) && Accepting(e)
    ensures var s1, m := SentTcp(s, e), s.current.value;
            if s1.phase == WRITE then
              && Inv(s1) && InWrite(s1) && s1.current == s.current && !DontBlock(s1, m)
              && s1.writeOffset > s.writeOffset && s1.completions == s.completions
            else
              s1.phase == NONE && s1.completions == s.completions + [Completion(m, ERR_OK, m.request.data)]
  {
    WriteProgress(s, e.write);
    hide Offered;
  }

  // ---- Where the environment's promises are needed ----

  /** A callback that the TCP core may make now. */
  predicate MayCome(s: State, a: Action) {
    match a
    case Sent(_) => true
    case Poll(_) => true
    case Err(err) => err != ERR_OK
    case Connected(_) => s.phase == CONNECT
    case _ => false
  }

  /** The callbacks among these that may come, one after the other. */
  function Delivered(s: State, callbacks: seq<Action>): State
    decreases |callbacks|
  {
    if callbacks == [] then s
    else Delivered(if MayCome(s, callbacks[0]) then Step(s, callbacks[0]) else s, callbacks[1..])
  }

  predicate AnsweredSince(s: State, n: nat, m: Message) {
    exists i | n <= i < |s.completions| :: s.completions[i].message == m
  }

  /** `m` has been answered since the first `n` signals, or is still owned by a phase that ends with an answer. */
  predicate Served(s: State, n: nat, m: Message) {
    AnsweredSince(s, n, m) || (s.current == Some(m) && (s.phase == WRITE || s.phase == CLOSE || s.phase == CONNECT))
  }

  ghost predicate AlwaysServed(s: State, n: nat, m: Message) {
    forall callbacks :: Served(Delivered(s, callbacks), n, m)
  }

  /** A caller in the close path that no mark hides is answered by whatever ends the close. */
  predicate Closing(s: State, n: nat, m: Message) {
    && n <= |s.completions| && s.phase != WRITE
    && (AnsweredSince(s, n, m) || (InClose(s) && s.current == Some(m) && !s.inNonblockingConnect))
  }

  lemma ClosingStep(s: State, n: nat, m: Message, a: Action)
    requires Closing(s, n, m) && MayCome(s, a)
    ensures Closing(Step(s, a), n, m)
  {
    hide WriteMore, Step;
    var s' := Step(s, a);
    CallbackAppends(s, a);
    if AnsweredSince(s, n, m) {
      var i :| n <= i < |s.completions| && s.completions[i].message == m;
      assert s'.completions[i] == s.completions[i];
    } else {
      ClosingEnds(s, m, a);
      assert s'.completions != s.completions ==> s'.completions[|s.completions|].message == m;
    }
  }

  /** Outside WRITE a callback only appends to the answers, and never starts a write. */
  lemma CallbackAppends(s: State, a: Action)
    requires s.phase != WRITE && MayCome(s, a)
    ensures s.completions <= Step(s, a).completions && Step(s, a).phase != WRITE
  {
    hide SentTcp, PollTcp, ErrTcp, DoConnected;
    match a
    case Sent(env) => ContinueOutsideWrite(s, env);
    case Poll(env) => ContinueOutsideWrite(s, env);
    case Err(err) => ErrAppends(s, err);
    case Connected(err) => ConnectedAppends(s, err);
  }

  lemma ContinueOutsideWrite(s: State, env: CallbackEnv)
    requires s.phase != WRITE
    ensures var s1 := if InClose(s) then CloseInternal(s, env.closeErr) else s;
            && SentTcp(s, env) == s1.(checkWritespace := SentTcp(s, env).checkWritespace)
            && PollTcp(s, env) == s1.(checkWritespace := PollTcp(s, env).checkWritespace)
            && s.completions <= s1.completions && s1.phase != WRITE
  {
    hide WriteMore;
    assert !InWrite(s);
  }

  lemma ErrAppends(s: State, err: int)
    requires s.phase != WRITE
    ensures s.completions <= ErrTcp(s, err).completions && ErrTcp(s, err).phase != WRITE
  {
  }

  lemma ConnectedAppends(s: State, err: int)
    ensures s.completions <= DoConnected(s, err).completions && DoConnected(s, err).phase != WRITE
  {
  }

  /** A callback leaves the closer as it is, or answers it. */
  lemma ClosingEnds(s: State, m: Message, a: Action)
    requires InClose(s) && s.current == Some(m) && !s.inNonblockingConnect && MayCome(s, a)
    ensures var s' := Step(s, a);
            if s'.completions == s.completions then InClose(s') && s'.current == Some(m) && !s'.inNonblockingConnect
            else |s'.completions| == |s.completions| + 1 && s'.completions[|s.completions|].message == m
  {
    hide SentTcp, PollTcp;
    match a
    case Sent(env) => ContinueOutsideWrite(s, env);
    case Poll(env) => ContinueOutsideWrite(s, env);
    case Err(_) =>
  }

  lemma {:induction false} ClosingServed(s: State, n: nat, m: Message, callbacks: seq<Action>)
    requires Closing(s, n, m)
    ensures Served(Delivered(s, callbacks), n, m)
    decreases |callbacks|
  {
    hide Step, AnsweredSince;
    if callbacks != [] {
      if MayCome(s, callbacks[0]) {
        ClosingStep(s, n, m, callbacks[0]);
        ClosingServed(Step(s, callbacks[0]), n, m, callbacks[1..]);
      } else {
        ClosingServed(s, n, m, callbacks[1..]);
      }
    }
  }

  /** Whoever waits once `m` has been handed in to the close path is `m`, and only `m` is answered from there on. */
  predicate OnlyCaller(s: State, n: nat, m: Message) {
    && (s.current == None || (s.current == Some(m) && (s.phase == CLOSE || s.phase == NONE)))
    && (s.current == None ==> s.phase == NONE)
    && forall i | n <= i < |s.completions| :: s.completions[i].message == m
  }

  lemma {:induction false} OnlyCallerStays(s: State, n: nat, m: Message, callbacks: seq<Action>)
    requires OnlyCaller(s, n, m)
    ensures OnlyCaller(Delivered(s, callbacks), n, m)
    decreases |callbacks|
  {
    if callbacks != [] {
      var s1 := if MayCome(s, callbacks[0]) then Step(s, callbacks[0]) else s;
      OnlyCallerStep(s, n, m, callbacks[0]);
      hide Step, MayCome, OnlyCaller;
      OnlyCallerStays(s1, n, m, callbacks[1..]);
    }
  }

  lemma OnlyCallerStep(s: State, n: nat, m: Message, a: Action)
    requires OnlyCaller(s, n, m)
    ensures OnlyCaller(if MayCome(s, a) then Step(s, a) else s, n, m)
  {
    hide SentTcp, PollTcp, ErrTcp, DoConnected;
    match a
    case Sent(env) => ContinueOutsideWrite(s, env);
    case Poll(env) => ContinueOutsideWrite(s, env);
    case Err(err) => OnlyCallerErr(s, n, m, err);
    case _ =>
  }

  lemma OnlyCallerErr(s: State, n: nat, m: Message, err: int)
    requires OnlyCaller(s, n, m)
    ensures OnlyCaller(ErrTcp(s, err), n, m)
  {
  }

  // ---- Deleting a connection that is still being opened ----

  lemma {:induction false} RunNext(s: State, actions: seq<Action>, k: nat)
    requires k < |actions| && (forall a | a in actions[..k] :: WellTyped(a)) && WellTyped(actions[k])
    ensures forall a | a in actions[..k + 1] :: WellTyped(a)
    ensures Run(s, actions[..k + 1]) == Step(Run(s, actions[..k]), actions[k])
  {
    hide Step, WellTyped;
    assert actions[..k + 1][..k] == actions[..k];
    assert forall a | a in actions[..k + 1] :: a in actions[..k] || a == actions[k];
  }

  lemma {:induction false} LegalNext(tcp: bool, actions: seq<Action>, k: nat)
    requires k < |actions| && LegalRun(tcp, actions[..k]) && Legal(Run(Allocated(tcp), actions[..k]), actions[k])
    ensures LegalRun(tcp, actions[..k + 1])
    ensures Run(Allocated(tcp), actions[..k + 1]) == Step(Run(Allocated(tcp), actions[..k]), actions[k])
  {
    assert WellTyped(actions[k]);
    hide Step, Legal, Allocated, Run, WellTyped;
    RunNext(Allocated(tcp), actions, k);
    var before, all := actions[..k], actions[..k + 1];
    forall n | 0 <= n < |all|
      ensures Legal(Run(Allocated(tcp), all[..n]), all[n])
    {
      assert all[..n] == before[..n];
      assert n == k ==> before[..n] == before;
    }
  }

  /** The non-blocking mark, a new pcb and a connect. */
  function Connecting(id: nat, nonBlocking: bool): (actions: seq<Action>)
    ensures |actions| == 3 && forall a | a in actions :: WellTyped(a)
  {
    [SetNonBlocking(nonBlocking), ApiNewConn(Message(id, New, ERR_OK), true),
     ApiConnect(Message(id + 1, Connect, ERR_OK), ERR_OK)]
  }

  lemma ConnectingSteps(id: nat, nonBlocking: bool)
    ensures var a, s0 := Connecting(id, nonBlocking), Allocated(true);
            && Legal(s0, a[0]) &&
            var s1 := Step(s0, a[0]);
            && Legal(s1, a[1]) &&
            var s2 := Step(s1, a[1]);
            && Legal(s2, a[2]) &&
            var s3 := Step(s2, a[2]);
            && s3.phase == CONNECT && s3.inNonblockingConnect == nonBlocking && !s3.gone
            && s3.current == if nonBlocking then None else Some(a[2].m)
  {
  }

  /** A connect brings a netconn into CONNECT, blocking or not. */
  lemma {:induction false} ConnectReached(id: nat, nonBlocking: bool)
    ensures LegalRun(true, Connecting(id, nonBlocking)) &&
            var s := Run(Allocated(true), Connecting(id, nonBlocking));
            && s.phase == CONNECT && s.inNonblockingConnect == nonBlocking && !s.gone
            && s.current == if nonBlocking then None else Some(Connecting(id, nonBlocking)[2].m)
  {
    hide Run, LegalRun, Connecting, Step, Legal, Allocated;
    var a := Connecting(id, nonBlocking);
    NothingRun(true, a[..0]);
    ConnectingSteps(id, nonBlocking);
    LegalNext(true, a, 0);
    LegalNext(true, a, 1);
    LegalNext(true, a, 2);
    assert a[..3] == a;
  }

  lemma {:induction false} NothingRun(tcp: bool, actions: seq<Action>)
    requires actions == []
    ensures LegalRun(tcp, actions) && Run(Allocated(tcp), actions) == Allocated(tcp)
  {
  }

  /** Such a delete, and then any callbacks: the pcb is in SYN_SENT, so the close succeeds and the deleter is answered,
      and everybody is served exactly when the connect was non-blocking. A caller blocked in connect is never
      answered. */
  lemma {:induction false} DeleteWhileConnecting(s: State, m: Message, finErr: int)
    requires Inv(s) && !s.gone && s.phase == CONNECT && m.request.Delete?
    ensures var s', n := DoDelConn(s, m, TcpClose(SYN_SENT, finErr)), |s.completions|;
            && AlwaysServed(s', n, m)
            && (s.current.Some? ==> forall callbacks :: !Served(Delivered(s', callbacks), n, s.current.value))
            && ((s.current.Some? ==> AlwaysServed(s', n, s.current.value)) <==> s.inNonblockingConnect)
  {
    hide AlwaysServed, Served, Delivered, DoDelConn;
    DeleteUnderAnyClose(s, m, TcpClose(SYN_SENT, finErr));
  }

  /** Why that hangs on tcp_close, and Legal asks for it: with a close that may fail the deleter is always answered, or
      owned by the close, exactly when no non-blocking connect is under way or the close succeeds at once; and everybody
      is served exactly when the connect was non-blocking and the close succeeds. */
  lemma {:induction false} DeleteUnderAnyClose(s: State, m: Message, closeErr: int)
    requires Inv(s) && !s.gone && s.phase == CONNECT && m.request.Delete?
    ensures var s', n := DoDelConn(s, m, closeErr), |s.completions|;
            && (AlwaysServed(s', n, m) <==> !s.inNonblockingConnect || closeErr == ERR_OK)
            && (s.current.Some? ==> forall callbacks :: !Served(Delivered(s', callbacks), n, s.current.value))
            && (AlwaysServed(s', n, m) && (s.current.Some? ==> AlwaysServed(s', n, s.current.value))
                <==> s.inNonblockingConnect && closeErr == ERR_OK)
  {
    var s', n := DoDelConn(s, m, closeErr), |s.completions|;
    DeleterServed(s, m, closeErr);
    if s.current.Some? {
      ConnecterLost(s, m, closeErr);
      assert !Served(Delivered(s', []), n, s.current.value);
    }
  }

  lemma {:induction false} DeleterServed(s: State, m: Message, closeErr: int)
    requires Inv(s) && !s.gone && s.phase == CONNECT && m.request.Delete?
    ensures AlwaysServed(DoDelConn(s, m, closeErr), |s.completions|, m) <==>
            !s.inNonblockingConnect || closeErr == ERR_OK
  {
    var s', n := DoDelConn(s, m, closeErr), |s.completions|;
    if !s.inNonblockingConnect || closeErr == ERR_OK {
      assert closeErr == ERR_OK ==> s'.completions[n].message == m;
      forall callbacks
        ensures Served(Delivered(s', callbacks), n, m)
      {
        ClosingServed(s', n, m, callbacks);
      }
    } else {
      DeleterForgotten(s, m, closeErr, ERR_CLSD, []);
      assert [Err(ERR_CLSD)][1..] == [];
      assert !Served(Delivered(s', [Err(ERR_CLSD)]), n, m);
    }
  }

  lemma {:induction false} ConnecterLost(s: State, m: Message, closeErr: int)
    requires Inv(s) && !s.gone && s.phase == CONNECT && m.request.Delete? && s.current.Some?
    ensures forall callbacks ::
              !Served(Delivered(DoDelConn(s, m, closeErr), callbacks), |s.completions|, s.current.value)
  {
    var s', n := DoDelConn(s, m, closeErr), |s.completions|;
    forall callbacks
      ensures !Served(Delivered(s', callbacks), n, s.current.value)
    {
      OnlyCallerStays(s', n, m, callbacks);
    }
  }

  /** Why a failed close would lose the deleter: the non-blocking-connect mark is still set, so the error callback
      signals nobody, and no callback after it ever does. */
  lemma {:induction false} DeleterForgotten(s: State, m: Message, closeErr: int, err: int, callbacks: seq<Action>)
    requires Inv(s) && !s.gone && s.phase == CONNECT && s.inNonblockingConnect && m.request.Delete?
    requires closeErr != ERR_OK && err != ERR_OK
    ensures var s' := Delivered(ErrTcp(DoDelConn(s, m, closeErr), err), callbacks);
            s'.phase == NONE && s'.current == Some(m) && s'.completions == s.completions
  {
    IdleStays(ErrTcp(DoDelConn(s, m, closeErr), err), callbacks);
  }

  lemma {:induction false} IdleStays(s: State, callbacks: seq<Action>)
    requires s.phase == NONE
    ensures var s' := Delivered(s, callbacks);
            s'.phase == NONE && s'.current == s.current && s'.completions == s.completions
    decreases |callbacks|
  {
    if callbacks != [] {
      IdleStays(if MayCome(s, callbacks[0]) then Step(s, callbacks[0]) else s, callbacks[1..]);
    }
  }

  /** Outside CONNECT the connected callback would signal a semaphore nobody waits on. */
  lemma StrayConnected(s: State, err: int)
    requires Inv(s) && !s.gone
    ensures (s.phase == NONE || s.phase == LISTEN) <==>
            DoConnected(s, err).completions == s.completions + [Completion(Stray, err, [])] && s.current == None
  {
  }
}
