/** What every answer on a netconn means: who gets it, with which error, and what must have happened for a success. */
module NetconnAnswers {
  import opened Common
  import opened NetconnSpec
  import opened NetconnProofs

  /** From `s` to `s'` exactly this answer is given. */
  predicate Answers(s: State, s': State, m: Message, err: int, bytes: seq<bv8>) {
    s'.completions == s.completions + [Completion(m, err, bytes)]
  }

  predicate Silent(s: State, s': State) {
    s'.completions == s.completions
  }

  /** A handler owns the connection. */
  predicate Busy(s: State) {
    s.phase == WRITE || s.phase == CLOSE || s.phase == CONNECT
  }

  /** The message is answered with this error and leaves no other trace. */
  predicate Refused(s: State, s': State, m: Message, err: int) {
    err != ERR_OK && s' == s.(completions := s.completions + [Completion(m, err, [])])
  }

  // ---- Callbacks ----

  /** The error callback answers exactly the caller that waits, with the error, and a writer with the bytes taken. */
  lemma ErrAnswers(s: State, err: int)
    requires Inv(s) && !s.gone && err != ERR_OK
    ensures var s' := ErrTcp(s, err);
            && (if s.current == None then Silent(s, s')
                else Answers(s, s', s.current.value, err, if s.phase == WRITE then s.accepted else []))
            && s'.current == None && s'.phase == NONE && !s'.hasPcb && s'.lastErr == err && !s'.gone
  {
  }

  /** After a fatal error callback nothing can be written and nobody can listen: each is answered with that error. */
  lemma FatalErrorSticks(s: State, err: int, write: Message, env: WriteEnv, listen: Message, listenEnv: ListenEnv)
    requires Inv(s) && !s.gone && ErrIsFatal(err)
    requires write.request.Write? && write.request.data != [] && listen.request.Listen?
    ensures var s' := ErrTcp(s, err);
            && Refused(s', DoWrite(s', write, env), write, err)
            && Refused(s', DoListen(s', listen, listenEnv), listen, err)
  {
    hide Inv, WriteMore;
  }

  /** A later error does not hide a fatal one. */
  lemma FatalErrorKept(s: State, err: int)
    ensures var s' := Step(s, ReportErr(err));
            Silent(s, s') && s'.lastErr == if ErrIsFatal(s.lastErr) then s.lastErr else err
  {
  }

  /** The connected callback answers a blocking caller with its error; a non-blocking connect leaves no answer but the
      end of ERR_INPROGRESS. */
  lemma ConnectedAnswers(s: State, err: int)
    requires Inv(s) && !s.gone && s.phase == CONNECT
    ensures var s' := DoConnected(s, err);
            && (if s.inNonblockingConnect then Silent(s, s') else Answers(s, s', s.current.value, err, []))
            && s'.current == None && s'.phase == NONE && s'.hasPcb && !s'.inNonblockingConnect
            && s'.lastErr == (if s.inNonblockingConnect && s.lastErr == ERR_INPROGRESS then ERR_OK else s.lastErr)
  {
  }

  /** The close that the sent or the poll callback tries again answers the closer exactly when it succeeds. */
  lemma CloseTriedAgain(s: State, env: CallbackEnv, polled: bool)
    requires Inv(s) && !s.gone && s.phase == CLOSE
    ensures var s' := if polled then PollTcp(s, env) else SentTcp(s, env);
            if env.closeErr == ERR_OK then
              && Answers(s, s', s.current.value, ERR_OK, []) && s'.current == None && s'.phase == NONE && !s'.hasPcb
              && (s'.gone <==> s.current.value.request.Delete?)
            else
              s' == s.(checkWritespace := s'.checkWritespace)
  {
  }

  /** Nobody is answered and nothing begins in a callback that finds neither a writer nor a closer. */
  lemma IdleCallback(s: State, env: CallbackEnv, polled: bool)
    requires Inv(s) && s.phase != WRITE && s.phase != CLOSE
    ensures var s' := if polled then PollTcp(s, env) else SentTcp(s, env);
            s' == s.(checkWritespace := s'.checkWritespace)
  {
  }

  /** The write-space mark goes when a callback sees room on a connection that is still there, and only then. */
  lemma MarkCleared(s: State, env: CallbackEnv, polled: bool)
    requires Inv(s) && s.phase != WRITE
    ensures var s' := if polled then PollTcp(s, env) else SentTcp(s, env);
            s'.checkWritespace <==> s.checkWritespace && !(s'.hasPcb && env.write.roomy)
  {
  }

  // ---- Writes ----

  /** Of what is left to write `do_writemore` offers as much as fits both a u16 and the send buffer. */
  lemma OffersTheMost(s: State, env: WriteEnv)
    requires InWrite(s)
    ensures var left, len := |s.current.value.request.data| - s.writeOffset, Offered(s, env);
            && len <= left && len <= 0xffff && len <= env.sndbuf
            && (len == left || len == 0xffff || len == env.sndbuf)
  {
  }

  /** A blocking writer waits on when tcp_write is out of memory, and is answered with any other error and the bytes
      taken so far. */
  lemma BlockedWriteFails(s: State, env: WriteEnv)
    requires Inv(s) && InWrite(s) && !DontBlock(s, s.current.value) && env.writeErr != ERR_OK
    ensures var s', data := WriteMore(s, env), s.current.value.request.data;
            if env.writeErr == ERR_MEM then s' == s
            else Answers(s, s', s.current.value, env.writeErr, data[..s.writeOffset])
                 && s' == s.(completions := s'.completions, current := None, phase := NONE)
  {
    hide Offered;
  }

  /** The write-space mark is set by a write that must not block and finds no room, and by nothing else. */
  lemma MarkSet(s: State, env: WriteEnv)
    requires Inv(s) && InWrite(s)
    ensures var data := s.current.value.request.data;
            WriteMore(s, env).checkWritespace <==>
            || s.checkWritespace
            || (DontBlock(s, s.current.value)
                && (env.writeErr == ERR_MEM || |data| > env.sndbuf || |data| > 0xffff || s.writeOffset > 0))
  {
  }

  /** A write is refused after a fatal error, on anything but TCP, while the netconn is not idle, and without a pcb, in
      this order. Otherwise its first attempt takes what fits; a writer that may block is answered when that was all or
      when tcp_write fails for good, and waits for the rest in all other cases. */
  lemma WriteBegins(s: State, m: Message, env: WriteEnv)
    requires Inv(s) && !s.gone && m.request.Write? && m.request.data != []
    ensures var s', data := DoWrite(s, m, env), m.request.data;
            if ErrIsFatal(s.lastErr) then Refused(s, s', m, s.lastErr)
            else if !s.tcp then Refused(s, s', m, ERR_VAL)
            else if s.phase != NONE then Refused(s, s', m, ERR_INPROGRESS)
            else if !s.hasPcb then Refused(s, s', m, ERR_CONN)
            else !DontBlock(s, m) ==>
              if env.writeErr != ERR_OK && env.writeErr != ERR_MEM then Answers(s, s', m, env.writeErr, [])
              else if env.writeErr == ERR_OK && |data| <= env.sndbuf && |data| <= 0xffff then
                Answers(s, s', m, ERR_OK, data)
              else Silent(s, s') && s'.current == Some(m) && s'.phase == WRITE && s'.hasPcb
  {
    var s1 := s.(phase := WRITE, current := Some(m), writeOffset := 0, accepted := []);
    if s.phase == NONE && s.hasPcb && s.tcp && !ErrIsFatal(s.lastErr) {
      OffersTheMost(s1, env);
      assert [] + m.request.data[0..|m.request.data|] == m.request.data;
    }
  }

  // ---- The other messages ----

  /** A close is refused while a handler owns the connection, without a connection, and for half a listener; else it is
      answered with success exactly when tcp_close succeeds, and waits when not. */
  lemma CloseBegins(s: State, m: Message, closeErr: int)
    requires Inv(s) && !s.gone && m.request.Close?
    ensures var s' := DoClose(s, m, closeErr);
            if Busy(s) then Refused(s, s', m, ERR_INPROGRESS)
            else if !s.hasPcb || !s.tcp then Refused(s, s', m, ERR_VAL)
            else if s.phase == LISTEN && !(m.request.shutRx && m.request.shutTx) then Refused(s, s', m, ERR_CONN)
            else if closeErr == ERR_OK then
              Answers(s, s', m, ERR_OK, []) && s' == s.(phase := NONE, hasPcb := false, completions := s'.completions)
            else s' == s.(phase := CLOSE, current := Some(m))
  {
  }

  /** A delete is refused while a writer or a closer waits. Else a TCP connection that is there is closed first, and
      the netconn is gone with the answer. */
  lemma DeleteBegins(s: State, m: Message, closeErr: int)
    requires Inv(s) && !s.gone && m.request.Delete?
    ensures var s' := DoDelConn(s, m, closeErr);
            if s.phase == WRITE || s.phase == CLOSE then Refused(s, s', m, ERR_INPROGRESS)
            else if s.hasPcb && s.tcp then
              if closeErr == ERR_OK then
                Answers(s, s', m, ERR_OK, []) && s'.gone && !s'.hasPcb && s'.phase == NONE && s'.current == None
              else Silent(s, s') && s'.phase == CLOSE && s'.current == Some(m) && !s'.gone && s'.hasPcb
            else Answers(s, s', m, m.err, []) && s'.gone && !s'.hasPcb
  {
  }

  /** A connect is refused without a pcb, unless idle, and when tcp_connect fails. Else a blocking caller waits and a
      non-blocking one is told ERR_INPROGRESS; either way the connected callback has to come. */
  lemma ConnectBegins(s: State, m: Message, connectErr: int)
    requires Inv(s) && !s.gone && m.request.Connect?
    ensures var s' := DoConnect(s, m, connectErr);
            if !s.hasPcb then Refused(s, s', m, ERR_CLSD)
            else if !s.tcp then Answers(s, s', m, connectErr, []) && s' == s.(completions := s'.completions)
            else if s.phase != NONE then Refused(s, s', m, ERR_ISCONN)
            else if connectErr != ERR_OK then Refused(s, s', m, connectErr)
            else
              && s'.phase == CONNECT && s'.inNonblockingConnect == s.nonBlocking
              && if s.nonBlocking then Answers(s, s', m, ERR_INPROGRESS, []) && s'.current == None
                 else Silent(s, s') && s'.current == Some(m)
  {
  }

  /** A listen succeeds exactly on an idle TCP connection without a fatal error for which pcb and mailbox are found, and
      the netconn listens then. A missing mailbox costs the pcb; every other failure leaves no trace. */
  lemma ListenAnswers(s: State, m: Message, env: ListenEnv)
    requires Inv(s) && !s.gone && m.request.Listen? && (env.NoMailbox? ==> env.err != ERR_OK)
    ensures var s' := DoListen(s, m, env);
            if ErrIsFatal(s.lastErr) then Refused(s, s', m, s.lastErr)
            else if !(s.hasPcb && s.tcp && s.phase == NONE) then Refused(s, s', m, ERR_CONN)
            else if env.NoListenPcb? then Refused(s, s', m, ERR_MEM)
            else if env.NoMailbox? then
              Answers(s, s', m, env.err, []) && s' == s.(hasPcb := false, completions := s'.completions)
            else Answers(s, s', m, ERR_OK, []) && s' == s.(phase := LISTEN, completions := s'.completions)
  {
    hide Inv;
  }

  /** Afterwards there is a pcb exactly when success was answered. */
  lemma NewAnswers(s: State, m: Message, pcbOk: bool)
    requires m.request.New?
    ensures var s' := DoNewConn(s, m, pcbOk);
            && Answers(s, s', m, if s'.hasPcb then ERR_OK else ERR_MEM, [])
            && s'.hasPcb == (s.hasPcb || pcbOk) && s' == s.(hasPcb := s'.hasPcb, completions := s'.completions)
  {
  }

  // ---- Over runs ----

  /** The result of tcp_close that an action brings. */
  function CloseResult(a: Action): Option<int> {
    match a
    case ApiClose(_, closeErr) => Some(closeErr)
    case ApiDelConn(_, closeErr) => Some(closeErr)
    case Sent(env) => Some(env.closeErr)
    case Poll(env) => Some(env.closeErr)
    case _ => None
  }

  function WriteResult(a: Action): Option<int> {
    match a
    case ApiWrite(_, env) => Some(env.writeErr)
    case Sent(env) => Some(env.write.writeErr)
    case Poll(env) => Some(env.write.writeErr)
    case _ => None
  }

  /** What the stack must just have said when the action answers `m` with success. */
  predicate Earned(s: State, a: Action, m: Message) {
    match m.request
    case Connect => if s.tcp then a == Connected(ERR_OK) && s.current == Some(m) else a == ApiConnect(m, ERR_OK)
    case Close(_, _) => CloseResult(a) == Some(ERR_OK)
    case Delete => if s.hasPcb && s.tcp then CloseResult(a) == Some(ERR_OK) else m.err == ERR_OK
    case Write(_, _) => WriteResult(a) == Some(ERR_OK)
    case Listen => a.ApiListen? && (a.listenEnv == Listening || a.listenEnv == NoMailbox(ERR_OK))
    case New => a == ApiNewConn(m, true) || (a == ApiNewConn(m, false) && s.hasPcb)
    case Simple => a == ApiSimple(m, ERR_OK)
  }

  /** Which error a caller that waits is told, and by what: the stack's, and never a success for an error. */
  predicate Told(s: State, a: Action, c: Completion) {
    && (c.err == ERR_OK ==> Earned(s, a, c.message))
    && (a.Err? ==> s.current == Some(c.message) && c.err == a.err)
    && (a.Connected? ==> s.current == Some(c.message) && c.err == a.err)
    && (a.Sent? || a.Poll? ==>
          && s.current == Some(c.message)
          && if s.phase == WRITE then c.err == ERR_WOULDBLOCK || Some(c.err) == WriteResult(a)
             else c.err == ERR_OK && CloseResult(a) == Some(ERR_OK))
    && (IsApi(a) ==> c.message == a.m)
  }

  /** The action that handed a waiting message in: a connecter waits only after tcp_connect succeeded for it, a closer
      only after tcp_close failed. */
  predicate HandsIn(a: Action, phase: Phase, m: Message) {
    && IsApi(a) && a.m == m
    && match phase
       case WRITE => a.ApiWrite?
       case CONNECT => a == ApiConnect(m, ERR_OK)
       case _ => CloseResult(a).Some? && CloseResult(a) != Some(ERR_OK)
  }

  predicate Waits(s: State, actions: seq<Action>) {
    s.current.Some? ==> exists a | a in actions :: HandsIn(a, s.phase, s.current.value)
  }

  /** An action leaves the waiting message under its phase, ends the wait, or is the one that hands a message in; and
      what it answers is what the stack said. */
  predicate Honest(s: State, a: Action, s': State) {
    && s'.tcp == s.tcp
    && (s'.current.Some? ==> (s'.current == s.current && s'.phase == s.phase) || HandsIn(a, s'.phase, s'.current.value))
    && (|s'.completions| == |s.completions| + 1 ==> Told(s, a, s'.completions[|s.completions|]))
  }

  lemma WriteHonest(s: State, m: Message, env: WriteEnv)
    requires Inv(s) && Legal(s, ApiWrite(m, env))
    ensures Honest(s, ApiWrite(m, env), DoWrite(s, m, env))
  {
    hide WriteMore;
    if !ErrIsFatal(s.lastErr) && s.tcp && s.phase == NONE && s.hasPcb {
      WriterAnswered(s.(phase := WRITE, current := Some(m), writeOffset := 0, accepted := []), env);
    }
  }

  /** The writer goes on waiting, or is answered with this error or ERR_WOULDBLOCK. */
  predicate WriterTold(s: State, s': State, err: int)
    requires s.current.Some?
  {
    && s'.tcp == s.tcp && s'.hasPcb == s.hasPcb
    && if |s'.completions| == |s.completions| then s'.current == s.current && s'.phase == WRITE
       else
         && |s'.completions| == |s.completions| + 1 && s'.current == None && s'.phase == NONE
         && s'.completions[|s.completions|].message == s.current.value
         && (s'.completions[|s.completions|].err == err || s'.completions[|s.completions|].err == ERR_WOULDBLOCK)
  }

  lemma FinishTold(s: State, s1: State, err: int, told: int)
    requires s.current.Some? && s1.current == s.current && s1.completions == s.completions
    requires s1.tcp == s.tcp && s1.hasPcb == s.hasPcb && (told == err || told == ERR_WOULDBLOCK)
    ensures WriterTold(s, FinishWrite(s1, told), err)
  {
  }

  lemma WaitTold(s: State, s1: State, err: int)
    requires s.current.Some? && s.phase == WRITE && s1 == s.(writeOffset := s1.writeOffset)
    ensures WriterTold(s, s1, err)
  {
  }

  lemma ConcludedTold(s: State, len: nat, err: int, told: int)
    requires InWrite(s) && s.writeOffset + len <= |s.current.value.request.data|
    requires told == err || (err == ERR_MEM && DontBlock(s, s.current.value))
    ensures WriterTold(s, Concluded(s, len, err), told)
  {
    hide FinishWrite, WriterTold, DontBlock;
    if DontBlock(s, s.current.value) && err == ERR_MEM {
      FinishTold(s, s.(checkWritespace := true), told, ERR_WOULDBLOCK);
    } else if err == ERR_OK && s.writeOffset + len == |s.current.value.request.data| {
      FinishTold(s, s.(writeOffset := 0), told, ERR_OK);
    } else if err == ERR_OK || err == ERR_MEM {
      WaitTold(s, Concluded(s, len, err), told);
    } else {
      FinishTold(s, s, told, err);
    }
  }

  lemma WriterAnswered(s: State, env: WriteEnv)
    requires InWrite(s)
    ensures WriterTold(s, WriteMore(s, env), env.writeErr)
  {
    hide Offered, Concluded, DontBlock, FinishWrite;
    var len := Offered(s, env);
    var err := if DontBlock(s, s.current.value) && len < |s.current.value.request.data| then ERR_MEM else env.writeErr;
    ConcludedTold(Taken(s, len, err), len, err, env.writeErr);
  }

  lemma CloseHonest(s: State, m: Message, closeErr: int)
    requires Inv(s) && Legal(s, ApiClose(m, closeErr))
    ensures Honest(s, ApiClose(m, closeErr), DoClose(s, m, closeErr))
  {
  }

  lemma DeleteHonest(s: State, m: Message, closeErr: int)
    requires Inv(s) && Legal(s, ApiDelConn(m, closeErr))
    ensures Honest(s, ApiDelConn(m, closeErr), DoDelConn(s, m, closeErr))
  {
  }

  lemma ConnectHonest(s: State, m: Message, connectErr: int)
    requires Inv(s) && Legal(s, ApiConnect(m, connectErr))
    ensures Honest(s, ApiConnect(m, connectErr), DoConnect(s, m, connectErr))
  {
  }

  lemma ListenHonest(s: State, m: Message, env: ListenEnv)
    requires Inv(s) && Legal(s, ApiListen(m, env))
    ensures Honest(s, ApiListen(m, env), DoListen(s, m, env))
  {
  }

  lemma NewHonest(s: State, m: Message, pcbOk: bool)
    requires Inv(s) && Legal(s, ApiNewConn(m, pcbOk))
    ensures Honest(s, ApiNewConn(m, pcbOk), DoNewConn(s, m, pcbOk))
  {
    hide Inv;
  }

  lemma ContinueHonest(s: State, a: Action)
    requires Inv(s) && Legal(s, a) && (a.Sent? || a.Poll?)
    ensures Honest(s, a, Step(s, a))
  {
    hide WriteMore;
    if s.phase == WRITE {
      WriterAnswered(s, a.env.write);
    }
  }

  lemma ErrHonest(s: State, err: int)
    requires Inv(s) && Legal(s, Err(err))
    ensures Honest(s, Err(err), ErrTcp(s, err))
  {
  }

  lemma ConnectedHonest(s: State, err: int)
    requires Inv(s) && Legal(s, Connected(err))
    ensures Honest(s, Connected(err), DoConnected(s, err))
  {
  }

  /** Every legal action. */
  lemma StepHonest(s: State, a: Action)
    requires Inv(s) && Legal(s, a)
    ensures Honest(s, a, Step(s, a))
  {
    assert WellTyped(a);
    if a.Sent? || a.Poll? {
      ContinueHonest(s, a);
    }
    hide Inv, Legal, DoWrite, DoClose, DoDelConn, DoConnect, DoListen, DoNewConn, DoConnected, ErrTcp, SentTcp, PollTcp;
    match a
    case ApiWrite(m, env) => WriteHonest(s, m, env);
    case ApiClose(m, closeErr) => CloseHonest(s, m, closeErr);
    case ApiDelConn(m, closeErr) => DeleteHonest(s, m, closeErr);
    case ApiConnect(m, connectErr) => ConnectHonest(s, m, connectErr);
    case ApiListen(m, env) => ListenHonest(s, m, env);
    case ApiNewConn(m, pcbOk) => NewHonest(s, m, pcbOk);
    case Err(err) => ErrHonest(s, err);
    case Connected(err) => ConnectedHonest(s, err);
    case _ =>
  }

  lemma WaitsStep(s: State, actions: seq<Action>, a: Action)
    requires Inv(s) && Legal(s, a) && Waits(s, actions)
    ensures Waits(Step(s, a), actions + [a])
  {
    assert WellTyped(a);
    hide Step, Inv, Legal, HandsIn, Told;
    StepHonest(s, a);
    var s' := Step(s, a);
    if s'.current.Some? {
      if s'.current == s.current && s'.phase == s.phase {
        var b :| b in actions && HandsIn(b, s.phase, s.current.value);
        assert b in actions + [a];
      } else {
        assert a in actions + [a];
      }
    }
  }

  lemma NobodyWaits(tcp: bool, actions: seq<Action>)
    ensures Waits(Allocated(tcp), actions)
  {
  }

  lemma {:induction false} RunWaits(tcp: bool, actions: seq<Action>)
    requires LegalRun(tcp, actions)
    ensures Waits(Run(Allocated(tcp), actions), actions) && Run(Allocated(tcp), actions).tcp == tcp
    decreases |actions|
  {
    hide Run, LegalRun, Step, Inv, Legal, Waits, Told, HandsIn;
    LegalTyped(tcp, actions);
    if actions == [] {
      NothingRun(tcp, actions);
      NobodyWaits(tcp, actions);
    } else {
      var n := |actions| - 1;
      LegalPrefix(tcp, actions, n);
      LegalLast(tcp, actions);
      RunConserves(tcp, actions[..n]);
      RunWaits(tcp, actions[..n]);
      WaitsStep(Run(Allocated(tcp), actions[..n]), actions[..n], actions[n]);
      StepHonest(Run(Allocated(tcp), actions[..n]), actions[n]);
      assert actions[..n] + [actions[n]] == actions;
    }
  }

  /** The step of a run at which its i-th answer was given. */
  lemma {:induction false} AnswerGiven(tcp: bool, actions: seq<Action>, i: nat) returns (k: nat)
    requires LegalRun(tcp, actions) && i < |Run(Allocated(tcp), actions).completions|
    ensures k < |actions| && LegalRun(tcp, actions[..k]) && LegalRun(tcp, actions[..k + 1])
    ensures Run(Allocated(tcp), actions[..k + 1]).completions
         == Run(Allocated(tcp), actions[..k]).completions + [Run(Allocated(tcp), actions).completions[i]]
    ensures |Run(Allocated(tcp), actions[..k]).completions| == i
    decreases |actions|
  {
    hide Run, LegalRun, Step, Inv, Legal, Pending, Answered, Faithful, Submits;
    LegalTyped(tcp, actions);
    if actions == [] {
      NothingRun(tcp, actions);
    } else {
      var n := |actions| - 1;
      LegalPrefix(tcp, actions, n);
      var s, s' := Run(Allocated(tcp), actions[..n]), Run(Allocated(tcp), actions);
      LegalLast(tcp, actions);
      RunConserves(tcp, actions[..n]);
      StepKeeps(s, actions[n]);
      if i < |s.completions| {
        k := AnswerGiven(tcp, actions[..n], i);
        assert actions[..n][..k] == actions[..k] && actions[..n][..k + 1] == actions[..k + 1];
      } else {
        k := n;
        assert actions[..n + 1] == actions;
        assert s'.completions == s.completions + [s'.completions[i]];
      }
    }
  }

  /** Every answer of every legal run tells what the stack said: an error callback tells its error to the caller that
      waits, a connected callback its result, a close or a write the result of tcp_close or tcp_write; and success is
      never told without the stack's success. A TCP connect succeeds only after tcp_connect returned ERR_OK for it and
      then a connected callback brought ERR_OK. */
  lemma {:induction false} AnswersAreEarned(tcp: bool, actions: seq<Action>, i: nat) returns (k: nat)
    requires LegalRun(tcp, actions) && i < |Run(Allocated(tcp), actions).completions|
    ensures k < |actions| && (forall a | a in actions[..k] :: WellTyped(a))
    ensures var s, c := Run(Allocated(tcp), actions[..k]), Run(Allocated(tcp), actions).completions[i];
            && |s.completions| == i && Told(s, actions[k], c)
            && (tcp && c.message.request.Connect? && c.err == ERR_OK ==>
                  ApiConnect(c.message, ERR_OK) in actions[..k] && actions[k] == Connected(ERR_OK))
            && (c.message.request.Close? && c.err == ERR_OK ==> CloseResult(actions[k]) == Some(ERR_OK))
  {
    hide Run, LegalRun, Step, Inv, Legal, Told, HandsIn, Waits, Honest;
    k := AnswerGiven(tcp, actions, i);
    LegalTyped(tcp, actions);
    StepAt(tcp, actions, k);
    ToldAt(Run(Allocated(tcp), actions[..k]), actions[..k], actions[k], Run(Allocated(tcp), actions).completions[i]);
  }

  lemma {:induction false} StepAt(tcp: bool, actions: seq<Action>, k: nat)
    requires LegalRun(tcp, actions) && k < |actions|
    ensures forall a | a in actions[..k] :: WellTyped(a)
    ensures var s, a := Run(Allocated(tcp), actions[..k]), actions[k];
            && s.tcp == tcp && Inv(s) && Legal(s, a) && Waits(s, actions[..k])
            && (forall a | a in actions[..k + 1] :: WellTyped(a))
            && Run(Allocated(tcp), actions[..k + 1]) == Step(s, a)
  {
    hide Run, LegalRun, Step, Inv, Waits, Pending, Answered, Faithful, Submitted, Submits, Sound;
    LegalPrefix(tcp, actions, k);
    LegalPrefix(tcp, actions, k + 1);
    LegalLast(tcp, actions[..k + 1]);
    assert actions[..k + 1][..k] == actions[..k];
    RunConserves(tcp, actions[..k]);
    RunWaits(tcp, actions[..k]);
  }

  lemma ToldAt(s: State, before: seq<Action>, a: Action, c: Completion)
    requires Inv(s) && Legal(s, a) && Waits(s, before) && Step(s, a).completions == s.completions + [c]
    ensures Told(s, a, c)
    ensures s.tcp && c.message.request.Connect? && c.err == ERR_OK ==>
              ApiConnect(c.message, ERR_OK) in before && a == Connected(ERR_OK)
    ensures c.message.request.Close? && c.err == ERR_OK ==> CloseResult(a) == Some(ERR_OK)
  {
    hide Step, Inv, Legal, Told, HandsIn, Waits;
    ConnectedLegal(s, a);
    StepHonest(s, a);
    assert Step(s, a).completions[|s.completions|] == c;
    ConnectEarned(s, before, a, c);
  }

  lemma ConnectedLegal(s: State, a: Action)
    requires Legal(s, a)
    ensures WellTyped(a) && (a.Connected? ==> s.phase == CONNECT)
  {
  }

  lemma ConnectEarned(s: State, actions: seq<Action>, a: Action, c: Completion)
    requires Inv(s) && Waits(s, actions) && Told(s, a, c) && WellTyped(a) && (a.Connected? ==> s.phase == CONNECT)
    ensures s.tcp && c.message.request.Connect? && c.err == ERR_OK ==>
              ApiConnect(c.message, ERR_OK) in actions && a == Connected(ERR_OK)
    ensures c.message.request.Close? && c.err == ERR_OK ==> CloseResult(a) == Some(ERR_OK)
  {
  }
}
