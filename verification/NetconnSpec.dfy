/** The netconn of the sequential lwIP API as a state machine: API messages from
    application threads and callbacks from the TCP core take turns on one
    connection, and every message must end in exactly one completion signal.

    Configuration LWIP_TCPIP_CORE_LOCKING = 0. What the stack underneath answers
    (tcp_write, tcp_close, tcp_connect, tcp_sndbuf, allocation) is an argument of the step. */
module NetconnSpec {
  import opened Common

  const ERR_OK := 0
  const ERR_MEM := -1
  const ERR_INPROGRESS := -5
  const ERR_VAL := -6
  const ERR_WOULDBLOCK := -7
  const ERR_CLSD := -10
  const ERR_CONN := -11
  const ERR_ISCONN := -15
  const MAX_U16: nat := 0xffff

  predicate ErrIsFatal(err: int) {
    err < ERR_WOULDBLOCK
  }

  datatype Option<T> = None | Some(value: T)

  datatype Request =
    | Write(data: seq<bv8>, dontBlock: bool)
    | Close(shutRx: bool, shutTx: bool)
    | Delete
    | Connect
    | Listen
    | New
    | Simple    // bind, disconnect, send, recv, getaddr, join or leave group

  /** An API message; `err` is what its field holds when it is handed over. */
  datatype Message = Message(id: nat, request: Request, err: int)

  datatype Phase = NONE | WRITE | LISTEN | CONNECT | CLOSE

  /** One signal of op_completed: the message answered, the error in it, and the
      bytes tcp_write took for it. */
  datatype Completion = Completion(message: Message, err: int, accepted: seq<bv8>)

  datatype State = State(
    tcp: bool,
    phase: Phase,
    hasPcb: bool,
    current: Option<Message>,
    writeOffset: nat,
    nonBlocking: bool,
    inNonblockingConnect: bool,
    checkWritespace: bool,
    lastErr: int,
    gone: bool,
    accepted: seq<bv8>,
    completions: seq<Completion>)

  /** `netconn_alloc` */
  function Allocated(tcp: bool): State {
    State(tcp, NONE, false, None, 0, false, false, false, ERR_OK, false, [], [])
  }

  /** sys_sem_signal for `m`, answered with `err`. */
  function Signal(s: State, m: Message, err: int, accepted: seq<bv8>): State {
    s.(completions := s.completions + [Completion(m, err, accepted)])
  }

  // ---- What the stack answers ----

  /** tcp_sndbuf before the write, the result of tcp_write, and whether there is room afterwards. */
  datatype WriteEnv = WriteEnv(sndbuf: nat, writeErr: int, roomy: bool)

  datatype ListenEnv = NoListenPcb | NoMailbox(err: int) | Listening

  /** Answers for a callback that may continue a write or a close. */
  datatype CallbackEnv = CallbackEnv(write: WriteEnv, closeErr: int)

  /** The states a TCP pcb can be in when its netconn is closed. */
  datatype PcbState = CLOSED | LISTENING | SYN_SENT | SYN_RCVD | ESTABLISHED | CLOSE_WAIT | ENDING

  /** `tcp_close`: only a pcb that has to send a FIN can fail to close. A netconn in CONNECT has one in SYN_SENT. */
  function TcpClose(pcb: PcbState, finErr: int): int {
    match pcb
    case SYN_RCVD => finErr
    case ESTABLISHED => finErr
    case CLOSE_WAIT => finErr
    case _ => ERR_OK
  }

  // ---- The write path ----

  function DontBlock(s: State, m: Message): bool
    requires m.request.Write?
  {
    s.nonBlocking || m.request.dontBlock
  }

  /** How many bytes `do_writemore` offers to tcp_write. */
  function Offered(s: State, env: WriteEnv): (len: nat)
    requires s.current.Some? && s.current.value.request.Write? && s.writeOffset <= |s.current.value.request.data|
    ensures s.writeOffset + len <= |s.current.value.request.data|
  {
    Min(Min(|s.current.value.request.data| - s.writeOffset, MAX_U16), env.sndbuf)
  }

  predicate InWrite(s: State) {
    && s.phase == WRITE && s.hasPcb && s.current.Some? && s.current.value.request.Write?
    && s.writeOffset < |s.current.value.request.data|
  }

  predicate InClose(s: State) {
    && s.phase == CLOSE && s.hasPcb && s.current.Some?
    && (s.current.value.request.Close? || s.current.value.request.Delete?)
  }

  /** The caller of a write is answered and the connection is idle again. */
  function FinishWrite(s: State, err: int): State
    requires s.current.Some?
  {
    Signal(s, s.current.value, err, s.accepted).(current := None, phase := NONE)
  }

  /** `tcp_write` takes all of the offered bytes or none. */
  function Taken(s: State, len: nat, err: int): State
    requires InWrite(s) && s.writeOffset + len <= |s.current.value.request.data|
  {
    if err == ERR_OK then
      s.(accepted := s.accepted + s.current.value.request.data[s.writeOffset..s.writeOffset + len])
    else s
  }

  /** What `do_writemore` makes of the result of `tcp_write` for `len` bytes. */
  function Concluded(s: State, len: nat, err: int): State
    requires InWrite(s) && s.writeOffset + len <= |s.current.value.request.data|
  {
    var m := s.current.value;
    if DontBlock(s, m) && err == ERR_MEM then FinishWrite(s.(checkWritespace := true), ERR_WOULDBLOCK)
    else if err == ERR_OK then
      if s.writeOffset + len == |m.request.data| then FinishWrite(s.(writeOffset := 0), ERR_OK)
      else s.(writeOffset := s.writeOffset + len)
    else if err == ERR_MEM then s
    else FinishWrite(s, err)
  }

  /** `do_writemore` */
  function WriteMore(s: State, env: WriteEnv): State
    requires InWrite(s)
  {
    var data, len := s.current.value.request.data, Offered(s, env);
    var err := if DontBlock(s, s.current.value) && len < |data| then ERR_MEM else env.writeErr;
    Concluded(Taken(s, len, err), len, err)
  }

  /** `do_write` */
  function DoWrite(s: State, m: Message, env: WriteEnv): State
    requires m.request.Write? && m.request.data != []
  {
    if ErrIsFatal(s.lastErr) then Signal(s, m, s.lastErr, [])
    else if !s.tcp then Signal(s, m, ERR_VAL, [])
    else if s.phase != NONE then Signal(s, m, ERR_INPROGRESS, [])
    else if s.hasPcb then WriteMore(s.(phase := WRITE, current := Some(m), writeOffset := 0, accepted := []), env)
    else Signal(s, m, ERR_CONN, [])
  }

  // ---- The close path ----

  /** `do_close_internal` */
  function CloseInternal(s: State, closeErr: int): State
    requires InClose(s)
  {
    if closeErr == ERR_OK then
      Signal(s, s.current.value, ERR_OK, []).(current := None, phase := NONE, hasPcb := false,
                                              gone := s.gone || s.current.value.request.Delete?)
    else s
  }

  /** `do_close` */
  function DoClose(s: State, m: Message, closeErr: int): State
    requires m.request.Close?
  {
    if s.phase != NONE && s.phase != LISTEN then Signal(s, m, ERR_INPROGRESS, [])
    else if s.hasPcb && s.tcp then
      if !(m.request.shutRx && m.request.shutTx) && s.phase == LISTEN then Signal(s, m, ERR_CONN, [])
      else CloseInternal(s.(phase := CLOSE, current := Some(m)), closeErr)
    else Signal(s, m, ERR_VAL, [])
  }

  /** `do_delconn` */
  function DoDelConn(s: State, m: Message, closeErr: int): State
    requires m.request.Delete?
  {
    if s.phase != NONE && s.phase != LISTEN && s.phase != CONNECT then Signal(s, m, ERR_INPROGRESS, [])
    else if s.hasPcb && s.tcp then CloseInternal(s.(phase := CLOSE, current := Some(m)), closeErr)
    else Signal(s, m, m.err, []).(hasPcb := false, gone := true)
  }

  // ---- Connecting and listening ----

  /** `do_connect` */
  function DoConnect(s: State, m: Message, connectErr: int): State
    requires m.request.Connect?
  {
    if !s.hasPcb then Signal(s, m, ERR_CLSD, [])
    else if !s.tcp then Signal(s, m, connectErr, [])
    else if s.phase != NONE then Signal(s, m, ERR_ISCONN, [])
    else if connectErr != ERR_OK then Signal(s, m, connectErr, [])
    else
      var s1 := s.(phase := CONNECT, inNonblockingConnect := s.nonBlocking);
      if s.nonBlocking then Signal(s1, m, ERR_INPROGRESS, []) else s1.(current := Some(m))
  }

  /** `do_connected` */
  function DoConnected(s: State, err: int): State {
    var s1 := s.(inNonblockingConnect := false, current := None, phase := NONE);
    if s.inNonblockingConnect then
      s1.(lastErr := if s.lastErr == ERR_INPROGRESS then ERR_OK else s.lastErr)
    else match s.current
      case Some(m) => Signal(s1, m, err, [])
      case None => Signal(s1, Stray, err, [])
  }

  /** Marks a signal that answers no message. */
  const Stray: Message := Message(0, Simple, 0)

  /** `do_listen` */
  function DoListen(s: State, m: Message, env: ListenEnv): State {
    if ErrIsFatal(s.lastErr) then Signal(s, m, s.lastErr, [])
    else if s.hasPcb && s.tcp && s.phase == NONE then
      match env
      case NoListenPcb => Signal(s, m, ERR_MEM, [])
      case NoMailbox(err) => Signal(s, m, err, []).(hasPcb := false)
      case Listening => Signal(s, m, ERR_OK, []).(phase := LISTEN)
    else Signal(s, m, ERR_CONN, [])
  }

  /** `do_newconn` */
  function DoNewConn(s: State, m: Message, pcbOk: bool): State {
    if s.hasPcb then Signal(s, m, ERR_OK, [])
    else Signal(s, m, if pcbOk then ERR_OK else ERR_MEM, []).(hasPcb := pcbOk)
  }

  // ---- Callbacks from the TCP core ----

  /** `err_tcp` */
  function ErrTcp(s: State, err: int): State {
    var s1 := s.(hasPcb := false, lastErr := err, phase := NONE);
    if s.phase == WRITE || s.phase == CLOSE || s.phase == CONNECT then
      var s2 := s1.(inNonblockingConnect := false);
      if s.inNonblockingConnect then s2
      else match s.current
        case Some(m) => Signal(s2, m, err, if s.phase == WRITE then s.accepted else []).(current := None)
        case None => Signal(s2, Stray, err, [])
    else s1
  }

  /** What `sent_tcp` and `poll_tcp` do first. */
  function Continue(s: State, env: CallbackEnv): State {
    if InWrite(s) then WriteMore(s, env.write)
    else if InClose(s) then CloseInternal(s, env.closeErr)
    else s
  }

  /** `sent_tcp` */
  function SentTcp(s: State, env: CallbackEnv): State {
    var s1 := Continue(s, env);
    if s1.hasPcb && env.write.roomy then s1.(checkWritespace := false) else s1
  }

  /** `poll_tcp` */
  function PollTcp(s: State, env: CallbackEnv): State {
    var s1 := Continue(s, env);
    if s1.checkWritespace && s1.hasPcb && env.write.roomy then s1.(checkWritespace := false) else s1
  }

  // ---- The machine ----

  datatype Action =
    | ApiWrite(m: Message, writeEnv: WriteEnv)
    | ApiClose(m: Message, closeErr: int)
    | ApiDelConn(m: Message, closeErr: int)
    | ApiConnect(m: Message, connectErr: int)
    | ApiListen(m: Message, listenEnv: ListenEnv)
    | ApiNewConn(m: Message, pcbOk: bool)
    | ApiSimple(m: Message, err: int)
    | Connected(err: int)
    | Sent(env: CallbackEnv)
    | Poll(env: CallbackEnv)
    | Err(err: int)
    | SetNonBlocking(on: bool)
    | ReportErr(err: int)   // NETCONN_SET_SAFE_ERR

  /** The message is of the kind its handler expects; writes are never empty (netconn_write filters them). */
  predicate WellTyped(a: Action) {
    match a
    case ApiWrite(m, _) => m.request.Write? && m.request.data != []
    case ApiClose(m, _) => m.request.Close?
    case ApiDelConn(m, _) => m.request.Delete?
    case ApiConnect(m, _) => m.request.Connect?
    case ApiListen(m, _) => m.request.Listen?
    case ApiNewConn(m, _) => m.request.New?
    case ApiSimple(m, _) => m.request.Simple?
    case _ => true
  }

  function Step(s: State, a: Action): State
    requires WellTyped(a)
  {
    match a
    case ApiWrite(m, env) => DoWrite(s, m, env)
    case ApiClose(m, closeErr) => DoClose(s, m, closeErr)
    case ApiDelConn(m, closeErr) => DoDelConn(s, m, closeErr)
    case ApiConnect(m, connectErr) => DoConnect(s, m, connectErr)
    case ApiListen(m, env) => DoListen(s, m, env)
    case ApiNewConn(m, pcbOk) => DoNewConn(s, m, pcbOk)
    case ApiSimple(m, err) => Signal(s, m, err, [])
    case Connected(err) => DoConnected(s, err)
    case Sent(env) => SentTcp(s, env)
    case Poll(env) => PollTcp(s, env)
    case Err(err) => ErrTcp(s, err)
    case SetNonBlocking(on) => s.(nonBlocking := on)
    case ReportErr(err) => if ErrIsFatal(s.lastErr) then s else s.(lastErr := err)
  }

  predicate IsApi(a: Action) {
    !(a.Connected? || a.Sent? || a.Poll? || a.Err? || a.SetNonBlocking? || a.ReportErr?)
  }

  function Run(s: State, actions: seq<Action>): State
    requires forall a | a in actions :: WellTyped(a)
  {
    if actions == [] then s else Step(Run(s, actions[..|actions| - 1]), actions[|actions| - 1])
  }
}
