/** The netconn handlers as they update the connection in place. Each one is
    proved to take the step of the same name in NetconnSpec. */
module Netconn {
  import opened Common
  import opened NetconnSpec
  import opened NetconnProofs

  /** struct api_msg_msg: lives in the caller's stack frame until the caller is woken. */
  class ApiMsg {
    const id: nat
    const request: Request
    var err: int

    constructor (id: nat, request: Request, err: int)
      ensures this.id == id && this.request == request && this.err == err
    {
      this.id, this.request, this.err := id, request, err;
    }

    function Value(): Message
      reads this
    {
      Message(id, request, err)
    }
  }

  lemma TakenKeepsTurn(s: State, len: nat, err: int)
    requires InWrite(s) && s.writeOffset + len <= |s.current.value.request.data|
    ensures Taken(s, len, err) == s.(accepted := Taken(s, len, err).accepted)
  {
  }

  lemma KeptInv(s: State, extra: multiset<Message>, s': State)
    requires Kept(s, extra, s')
    ensures Inv(s')
  {
  }

  class Conn {
    const tcp: bool
    var state: Phase
    var hasPcb: bool
    var lastErr: int
    var nonBlocking: bool
    var inNonblockingConnect: bool
    var checkWritespace: bool
    var writeOffset: nat
    var currentMsg: ApiMsg?
    var opCompleted: nat
    // history: what each signal answered, and what tcp_write has taken for the current message
    ghost var handedIn: Option<Message>
    ghost var completions: seq<Completion>
    ghost var accepted: seq<bv8>
    ghost var gone: bool

    constructor (tcp: bool)
      ensures Valid() && View() == Allocated(tcp)
    {
      this.tcp := tcp;
      state, hasPcb, lastErr, currentMsg, opCompleted := NONE, false, ERR_OK, null, 0;
      nonBlocking, inNonblockingConnect, checkWritespace, writeOffset := false, false, false, 0;
      handedIn, completions, accepted, gone := None, [], [], false;
    }

    /** Every signal answers one message, and the waiting message is the one handed in. */
    ghost predicate Valid()
      reads this, currentMsg
    {
      && opCompleted == |completions|
      && (handedIn.Some? <==> currentMsg != null)
      && (currentMsg != null ==> handedIn == Some(currentMsg.Value()))
    }

    ghost function View(): State
      reads this
    {
      State(tcp, state, hasPcb, handedIn, writeOffset, nonBlocking, inNonblockingConnect, checkWritespace,
            lastErr, gone, accepted, completions)
    }

    /** `msg->err = err; sys_sem_signal(&conn->op_completed)`: the caller may go on. */
    method Answer(msg: ApiMsg, err: int)
      requires Valid() && msg != currentMsg
      modifies this`opCompleted, this`completions, msg
      ensures Valid() && View() == Signal(old(View()), old(msg.Value()), err, [])
      ensures msg.err == err
    {
      completions := completions + [Completion(msg.Value(), err, [])];
      msg.err := err;
      opCompleted := opCompleted + 1;
    }

    /** `current_msg->err = err; current_msg = NULL; state = NETCONN_NONE; sys_sem_signal(...)` */
    method Release(err: int, ghost bytes: seq<bv8>)
      requires Valid() && currentMsg != null
      modifies this, currentMsg
      ensures Valid() && View() == Signal(old(View()), old(handedIn.value), err, bytes).(current := None, phase := NONE)
      ensures old(currentMsg).err == err
    {
      completions := completions + [Completion(handedIn.value, err, bytes)];
      currentMsg.err := err;
      currentMsg, handedIn := null, None;
      state := NONE;
      opCompleted := opCompleted + 1;
    }

    /** Hand the connection over to `msg`. */
    method HandIn(msg: ApiMsg, phase: Phase)
      requires Valid()
      modifies this`currentMsg, this`handedIn, this`state
      ensures Valid() && currentMsg == msg
      ensures View() == old(View()).(phase := phase, current := Some(msg.Value()))
    {
      currentMsg, handedIn := msg, Some(msg.Value());
      state := phase;
    }

    /** How many bytes to offer: what is left, at most 65535, at most what the send buffer takes. */
    method Room(data: seq<bv8>, env: WriteEnv) returns (len: nat)
      requires Valid() && InWrite(View()) && data == View().current.value.request.data
      ensures len == Offered(View(), env)
    {
      var diff := |data| - writeOffset;
      len := if diff > MAX_U16 then MAX_U16 else diff;
      var available := env.sndbuf;
      if available < len {
        len := available;
      }
    }

    /** The part of `do_writemore` up to the result of `tcp_write`. */
    method Offer(data: seq<bv8>, dontBlock: bool, env: WriteEnv) returns (len: nat, err: int)
      requires Valid() && InWrite(View()) && data == View().current.value.request.data
      requires dontBlock == DontBlock(View(), View().current.value)
      modifies this`accepted
      ensures Valid() && len == Offered(old(View()), env)
      ensures err == if dontBlock && len < |data| then ERR_MEM else env.writeErr
      ensures View() == Taken(old(View()), len, err)
    {
      hide Offered, DontBlock;
      err := ERR_OK;
      len := Room(data, env);
      if dontBlock && len < |data| {
        err := ERR_MEM;
      }
      if err == ERR_OK {
        err := env.writeErr;
        if err == ERR_OK {
          accepted := accepted + data[writeOffset..writeOffset + len];
        }
      }
    }

    /** `do_writemore` */
    method WriteMore(env: WriteEnv)
      requires Valid() && InWrite(View())
      modifies this, currentMsg
      ensures Valid() && View() == NetconnSpec.WriteMore(old(View()), env)
    {
      hide Offered, Concluded, Taken;
      var dontBlock := nonBlocking || currentMsg.request.dontBlock;
      var len, err := Offer(currentMsg.request.data, dontBlock, env);
      TakenKeepsTurn(old(View()), len, err);
      Conclude(dontBlock, len, err);
    }

    /** Moves the offset on, and back to 0 behind the last byte. */
    method Advance(len: nat) returns (finished: bool)
      requires Valid() && currentMsg != null && currentMsg.request.Write?
      modifies this`writeOffset
      ensures Valid() && finished == (old(writeOffset) + len == |currentMsg.request.data|)
      ensures View() == old(View()).(writeOffset := if finished then 0 else old(writeOffset) + len)
    {
      writeOffset := writeOffset + len;
      finished := writeOffset == |currentMsg.request.data|;
      if finished {
        writeOffset := 0;
      }
    }

    /** The part of `do_writemore` behind `tcp_write`. */
    method Conclude(dontBlock: bool, len: nat, writeErr: int)
      requires Valid() && InWrite(View()) && dontBlock == DontBlock(View(), View().current.value)
      requires writeOffset + len <= |View().current.value.request.data|
      modifies this, currentMsg
      ensures Valid() && View() == Concluded(old(View()), len, writeErr)
    {
      hide DontBlock;
      var err, writeFinished := writeErr, false;
      if dontBlock && err == ERR_MEM {
        writeFinished := true;
        err := ERR_WOULDBLOCK;
        checkWritespace := true;
      } else if err == ERR_OK {
        writeFinished := Advance(len);
      } else if err != ERR_MEM {
        writeFinished := true;
      }
      if writeFinished {
        Release(err, accepted);
      }
    }

    /** `do_write` */
    method DoWrite(msg: ApiMsg, env: WriteEnv)
      requires Valid() && msg != currentMsg && msg.request.Write? && msg.request.data != []
      modifies this, msg
      ensures Valid() && View() == NetconnSpec.DoWrite(old(View()), old(msg.Value()), env)
    {
      if ErrIsFatal(lastErr) {
        Answer(msg, lastErr);
      } else if !tcp {
        Answer(msg, ERR_VAL);
      } else if state != NONE {
        Answer(msg, ERR_INPROGRESS);
      } else if hasPcb {
        HandIn(msg, WRITE);
        writeOffset, accepted := 0, [];
        WriteMore(env);
      } else {
        Answer(msg, ERR_CONN);
      }
    }

    /** `do_close_internal` */
    method CloseInternal(closeErr: int)
      requires Valid() && InClose(View())
      modifies this, currentMsg
      ensures Valid() && View() == NetconnSpec.CloseInternal(old(View()), closeErr)
    {
      if closeErr == ERR_OK {
        hasPcb := false;
        gone := gone || currentMsg.request.Delete?;
        Release(ERR_OK, []);
      }
    }

    /** A close or a delete becomes the current message and makes its first attempt. */
    method BeginClose(msg: ApiMsg, closeErr: int)
      requires Valid() && msg != currentMsg && (msg.request.Close? || msg.request.Delete?) && hasPcb
      modifies this, msg
      ensures Valid()
      ensures View()
           == NetconnSpec.CloseInternal(old(View()).(phase := CLOSE, current := Some(old(msg.Value()))), closeErr)
    {
      HandIn(msg, CLOSE);
      CloseInternal(closeErr);
    }

    /** `do_close` */
    method DoClose(msg: ApiMsg, closeErr: int)
      requires Valid() && msg != currentMsg && msg.request.Close?
      modifies this, msg
      ensures Valid() && View() == NetconnSpec.DoClose(old(View()), old(msg.Value()), closeErr)
    {
      if state != NONE && state != LISTEN {
        Answer(msg, ERR_INPROGRESS);
      } else if hasPcb && tcp {
        if !(msg.request.shutRx && msg.request.shutTx) && state == LISTEN {
          Answer(msg, ERR_CONN);
        } else {
          BeginClose(msg, closeErr);
        }
      } else {
        Answer(msg, ERR_VAL);
      }
    }

    /** `do_delconn` */
    method DoDelConn(msg: ApiMsg, closeErr: int)
      requires Valid() && msg != currentMsg && msg.request.Delete?
      modifies this, msg
      ensures Valid() && View() == NetconnSpec.DoDelConn(old(View()), old(msg.Value()), closeErr)
    {
      hide NetconnSpec.CloseInternal;
      if state != NONE && state != LISTEN && state != CONNECT {
        Answer(msg, ERR_INPROGRESS);
      } else if hasPcb && tcp {
        BeginClose(msg, closeErr);
      } else {
        hasPcb, gone := false, true;
        Answer(msg, msg.err);
      }
    }

    /** `do_connect` */
    method DoConnect(msg: ApiMsg, connectErr: int)
      requires Valid() && msg != currentMsg && msg.request.Connect?
      modifies this, msg
      ensures Valid() && View() == NetconnSpec.DoConnect(old(View()), old(msg.Value()), connectErr)
    {
      var err;
      if !hasPcb {
        err := ERR_CLSD;
      } else if !tcp {
        err := connectErr;
      } else if state != NONE {
        err := ERR_ISCONN;
      } else {
        err := connectErr;
        if err == ERR_OK {
          state, inNonblockingConnect := CONNECT, nonBlocking;
          if nonBlocking {
            err := ERR_INPROGRESS;
          } else {
            HandIn(msg, CONNECT);
            return;
          }
        }
      }
      Answer(msg, err);
    }

    /** `do_connected` */
    method DoConnected(err: int)
      requires Valid() && state == CONNECT && (inNonblockingConnect <==> currentMsg == null)
      modifies this, currentMsg
      ensures Valid() && View() == NetconnSpec.DoConnected(old(View()), err)
      ensures old(currentMsg) != null ==> old(currentMsg).err == err
    {
      var wasBlocking := !inNonblockingConnect;
      inNonblockingConnect := false;
      if wasBlocking {
        Release(err, []);
      } else {
        state := NONE;
        if lastErr == ERR_INPROGRESS {
          lastErr := ERR_OK;
        }
      }
    }

    /** `do_listen` */
    method DoListen(msg: ApiMsg, env: ListenEnv)
      requires Valid() && msg != currentMsg && msg.request.Listen?
      modifies this, msg
      ensures Valid() && View() == NetconnSpec.DoListen(old(View()), old(msg.Value()), env)
    {
      var err := ERR_CONN;
      if ErrIsFatal(lastErr) {
        err := lastErr;
      } else if hasPcb && tcp && state == NONE {
        match env
        case NoListenPcb => err := ERR_MEM;
        case NoMailbox(e) => err, hasPcb := e, false;
        case Listening => err, state := ERR_OK, LISTEN;
      }
      Answer(msg, err);
    }

    /** `do_newconn` */
    method DoNewConn(msg: ApiMsg, pcbOk: bool)
      requires Valid() && msg != currentMsg && msg.request.New?
      modifies this, msg
      ensures Valid() && View() == NetconnSpec.DoNewConn(old(View()), old(msg.Value()), pcbOk)
    {
      var err := ERR_OK;
      if !hasPcb {
        hasPcb := pcbOk;
        if !hasPcb { err := ERR_MEM; }
      }
      Answer(msg, err);
    }

    /** `err_tcp` */
    method ErrTcp(err: int)
      requires Valid() && Inv(View())
      modifies this, currentMsg
      ensures Valid() && View() == NetconnSpec.ErrTcp(old(View()), err)
      ensures old(currentMsg) != null && !old(inNonblockingConnect) ==> old(currentMsg).err == err
    {
      hasPcb := false;
      lastErr := err;
      var oldState := state;
      state := NONE;
      if oldState == WRITE || oldState == CLOSE || oldState == CONNECT {
        var wasNonblockingConnect := inNonblockingConnect;
        inNonblockingConnect := false;
        if !wasNonblockingConnect {
          Release(err, if oldState == WRITE then accepted else []);
        }
      }
    }

    /** `sent_tcp` */
    method SentTcp(env: CallbackEnv)
      requires Valid() && Inv(View())
      modifies this, currentMsg
      ensures Valid() && View() == NetconnSpec.SentTcp(old(View()), env)
    {
      if state == WRITE {
        WriteMore(env.write);
      } else if state == CLOSE {
        CloseInternal(env.closeErr);
      }
      if hasPcb && env.write.roomy {
        checkWritespace := false;
      }
    }

    /** `poll_tcp` */
    method PollTcp(env: CallbackEnv)
      requires Valid() && Inv(View())
      modifies this, currentMsg
      ensures Valid() && View() == NetconnSpec.PollTcp(old(View()), env)
    {
      if state == WRITE {
        WriteMore(env.write);
      } else if state == CLOSE {
        CloseInternal(env.closeErr);
      }
      if checkWritespace {
        if hasPcb && env.write.roomy {
          checkWritespace := false;
        }
      }
    }

    /** Any one handler or callback that may run now. On the object itself, no answer is lost, none is given twice, and
        every answer is truthful about the bytes. */
    method Perform(a: Action, msg: ApiMsg?)
      requires Valid() && Inv(View()) && Legal(View(), a)
      requires IsApi(a) ==> msg != null && msg != currentMsg && msg.Value() == a.m
      modifies this, currentMsg, msg
      ensures Valid() && View() == Step(old(View()), a)
      ensures Inv(View()) && Kept(old(View()), Submits(a), View())
    {
      StepKeeps(View(), a);
      KeptInv(View(), Submits(a), Step(View(), a));
      if IsApi(a) {
        Submit(a, msg);
      } else {
        Notify(a);
      }
    }

    /** An API message runs its handler. */
    method Submit(a: Action, msg: ApiMsg)
      requires Valid() && WellTyped(a) && IsApi(a) && msg != currentMsg && msg.Value() == a.m
      modifies this, msg
      ensures Valid() && View() == Step(old(View()), a)
    {
      hide NetconnSpec.DoWrite, NetconnSpec.DoClose, NetconnSpec.DoDelConn, NetconnSpec.DoConnect, NetconnSpec.DoListen;
      hide NetconnSpec.DoNewConn;
      match a {
        case ApiWrite(_, env) => DoWrite(msg, env);
        case ApiClose(_, closeErr) => DoClose(msg, closeErr);
        case ApiDelConn(_, closeErr) => DoDelConn(msg, closeErr);
        case ApiConnect(_, connectErr) => DoConnect(msg, connectErr);
        case ApiListen(_, env) => DoListen(msg, env);
        case ApiNewConn(_, pcbOk) => DoNewConn(msg, pcbOk);
        case ApiSimple(_, err) => Answer(msg, err);
      }
    }

    /** A callback from the TCP core, or a flag set by the application. */
    method Notify(a: Action)
      requires Valid() && Inv(View()) && Legal(View(), a) && !IsApi(a)
      modifies this, currentMsg
      ensures Valid() && View() == Step(old(View()), a)
    {
      hide NetconnSpec.DoConnected, NetconnSpec.SentTcp, NetconnSpec.PollTcp, NetconnSpec.ErrTcp, ErrIsFatal;
      match a {
        case Connected(err) => DoConnected(err);
        case Sent(env) => SentTcp(env);
        case Poll(env) => PollTcp(env);
        case Err(err) => ErrTcp(err);
        case SetNonBlocking(on) => nonBlocking := on;
        case ReportErr(err) =>
          if !ErrIsFatal(lastErr) {
            lastErr := err;
          }
      }
    }
  }
}
