/** The MQTT-SN client: requests, retransmission and the topic table, as a state machine. */
module MqttSnSpec {

  const MAX_TOPICS: nat := 10
  const T_RETRY: nat := 15
  const N_RETRY: nat := 5
  const IDS: nat := 0x1_0000
  const CLOCK: nat := 0x1_0000_0000

  type Id = x: nat | x < IDS
  type Clock = x: nat | x < CLOCK
  type Name = string

  /** `bswap`: both ends of the wire use the other byte order. */
  function Bswap(val: Id): Id {
    val % 0x100 * 0x100 + val / 0x100
  }

  lemma BswapInvolutive(val: Id)
    ensures Bswap(Bswap(val)) == val
  {
  }

  datatype Kind = ADVERTISE | GWINFO | CONNACK | REGACK | PUBACK | SUBACK | UNSUBACK | PINGRESP | DISCONNECT

  /** What the message buffer holds, as far as anybody depends on it. Ids are in wire order. */
  datatype Out =
    | Register(messageId: Id, name: Name)
    | Publish(flags: bv8, topicId: Id, messageId: Id, data: seq<bv8>)
    | Subscribe(flags: bv8, topic: Target, messageId: Id)
    | Unsubscribe(flags: bv8, topic: Target, messageId: Id)
    | Puback(topicId: Id, messageId: Id, accepted: bool)
    | Plain(what: string)

  /** What a subscription names. */
  datatype Target = ByName(name: Name) | ById(id: Id)

  /** A message from the gateway. Ids are in wire order. */
  datatype In =
    | Regack(topicId: Id, messageId: Id, returnCode: nat)
    | Reply(kind: Kind)         // handled only while it is waited for
    | Gwinfo
    | WillRequest               // WILLTOPICREQ, WILLMSGREQ
    | Pingreq
    | Disconnect
    | PublishIn(qos1: bool, topicId: Id, messageId: Id)
    | Unknown

  datatype Topic = Topic(name: Name, id: Id)

  datatype State = State(
    waiting: bool,
    waitFor: Kind,
    messageId: Id,
    topicCount: nat,
    table: seq<Topic>,
    buffer: Out,
    timer: Clock,
    retries: nat,
    outbox: seq<Out>,
    lostGateway: nat,   // calls of disconnect_handler(NULL)
    issued: nat)        // message ids issued so far

  function Initial(): (s: State)
    ensures |s.table| == MAX_TOPICS && s.topicCount == 0
  {
    State(true, ADVERTISE, 0, 0, seq(MAX_TOPICS, _ => Topic("", 0)), Plain(""), 0, 0, [], 0, 0)
  }

  /** `send_message` */
  function SendMessage(s: State, now: Clock): State {
    var s1 := s.(outbox := s.outbox + [s.buffer]);
    if s.waiting then s1 else s1.(timer := now, retries := N_RETRY)
  }

  function Request(s: State, m: Out, waitFor: Kind, now: Clock): State {
    SendMessage(s.(buffer := m), now).(waiting := true, waitFor := waitFor)
  }

  function Send(s: State, m: Out, now: Clock): State {
    SendMessage(s.(buffer := m), now)
  }

  function NextId(s: State): State {
    s.(messageId := (s.messageId + 1) % IDS, issued := s.issued + 1)
  }

  // ---- Time-out ----

  /** `millis() - _response_timer` in 32 bits. */
  function Elapsed(now: Clock, timer: Clock): Clock {
    (now + CLOCK - timer) % CLOCK
  }

  predicate Expired(s: State, now: Clock) {
    s.waiting && Elapsed(now, s.timer) > T_RETRY * 1000
  }

  /** `wait_for_response`; the clock is read a second time when the timer is restarted. */
  function WaitForResponse(s: State, now: Clock, again: Clock): State {
    if !Expired(s, now) then s
    else
      var s1 := s.(timer := again);
      var s2 :=
        if s.retries == 0 then s1.(waiting := false, lostGateway := s.lostGateway + 1) else SendMessage(s1, again);
      s2.(retries := (s.retries + 255) % 256)
  }

  // ---- Topics ----

  /** `register_topic`; refused while a reply is awaited or when the table is full. */
  function RegisterTopic(s: State, name: Name, now: Clock): State
    requires |s.table| == MAX_TOPICS
  {
    if !s.waiting && s.topicCount < MAX_TOPICS - 1 then
      var s1 := NextId(s).(table := s.table[s.topicCount := Topic(name, 0)]);
      Request(s1, Register(Bswap(s1.messageId), name), REGACK, now)
    else s
  }

  predicate HasTopicId(table: seq<Topic>, n: nat, id: Id)
    requires n <= |table|
  {
    exists i | 0 <= i < n :: table[i].id == id
  }

  /** `regack_handler` */
  function RegackHandler(s: State, topicId: Id, messageId: Id, returnCode: nat): State
    requires |s.table| == MAX_TOPICS && s.topicCount <= MAX_TOPICS
  {
    if returnCode == 0 && s.topicCount < MAX_TOPICS && Bswap(messageId) == s.messageId
       && !HasTopicId(s.table, s.topicCount, Bswap(topicId))
    then s.(table := s.table[s.topicCount := s.table[s.topicCount].(id := Bswap(topicId))],
            topicCount := s.topicCount + 1)
    else s
  }

  /** `publish_handler` and `puback`: the ids are passed on as they came, and swapped once more. */
  function PubackFor(s: State, topicId: Id, messageId: Id): Out
    requires s.topicCount <= |s.table|
  {
    Puback(Bswap(topicId), Bswap(messageId), HasTopicId(s.table, s.topicCount, Bswap(topicId)))
  }

  /** `dispatch`; whatever was handled ends the wait. Inbound REGISTER is not part of this model. */
  function Dispatch(s: State, m: In, now: Clock): State
    requires |s.table| == MAX_TOPICS && s.topicCount <= MAX_TOPICS
  {
    match m
    case Regack(topicId, messageId, returnCode) =>
      if s.waiting && s.waitFor == REGACK then RegackHandler(s, topicId, messageId, returnCode).(waiting := false)
      else s
    case Reply(kind) => if s.waiting && s.waitFor == kind then s.(waiting := false) else s
    case PublishIn(qos1, topicId, messageId) =>
      (if qos1 then Send(s, PubackFor(s, topicId, messageId), now) else s).(waiting := false)
    case Pingreq => Send(s, Plain("PINGRESP"), now).(waiting := false)
    case Gwinfo => s.(waiting := false)
    case WillRequest => s.(waiting := false)
    case Disconnect => s.(waiting := false)
    case Unknown => s
  }

  // ---- Other requests ----

  const QOS_MASK: bv8 := 0x60

  /** QoS 1 or 2 is requested: an answer is due. */
  predicate WantsAnswer(flags: bv8) {
    flags & QOS_MASK == 0x20 || flags & QOS_MASK == 0x40
  }

  function RequestIf(s: State, m: Out, wait: bool, waitFor: Kind, now: Clock): State {
    if wait then Request(s, m, waitFor, now) else Send(s, m, now)
  }

  function DoPublish(s: State, flags: bv8, topicId: Id, data: seq<bv8>, now: Clock): State {
    var s1 := NextId(s);
    RequestIf(s1, Publish(flags, Bswap(topicId), Bswap(s1.messageId), data), WantsAnswer(flags), PUBACK, now)
  }

  /** The quality of service asked for, and how the topic is named. */
  function SubscriptionFlags(flags: bv8, topic: Target): bv8 {
    (flags & QOS_MASK) | if topic.ById? then 0x01 else 0x00
  }

  function OnWire(topic: Target): Target {
    match topic
    case ByName(_) => topic
    case ById(id) => ById(Bswap(id))
  }

  function DoSubscribe(s: State, flags: bv8, topic: Target, now: Clock): State {
    var s1 := NextId(s);
    var m := Subscribe(SubscriptionFlags(flags, topic), OnWire(topic), Bswap(s1.messageId));
    RequestIf(s1, m, WantsAnswer(flags), SUBACK, now)
  }

  function DoUnsubscribe(s: State, flags: bv8, topic: Target, now: Clock): State {
    var s1 := NextId(s);
    var m := Unsubscribe(SubscriptionFlags(flags, topic), OnWire(topic), Bswap(s1.messageId));
    RequestIf(s1, m, WantsAnswer(flags), UNSUBACK, now)
  }

  // ---- The machine ----

  datatype Action =
    | ARegister(name: Name, now: Clock)
    | APublish(flags: bv8, topicId: Id, data: seq<bv8>, now: Clock)
    | ASubscribe(flags: bv8, topic: Target, now: Clock)
    | AUnsubscribe(flags: bv8, topic: Target, now: Clock)
    | ARequest(what: string, waitFor: Kind, now: Clock)   // searchgw, connect, disconnect, pingreq
    | ASend(what: string, now: Clock)                     // willtopic, willmsg
    | APoll(now: Clock, again: Clock)
    | ATimeout
    | AReceive(m: In, now: Clock)

  /** searchgw, connect, disconnect and pingreq wait for these. */
  predicate PlainKind(k: Kind) {
    k == GWINFO || k == CONNACK || k == DISCONNECT || k == PINGRESP
  }

  predicate WellTyped(a: Action) {
    && (a.ARequest? ==> PlainKind(a.waitFor))
    && (a.AReceive? && a.m.Reply? ==> a.m.kind != REGACK)
  }

  function Step(s: State, a: Action): State
    requires |s.table| == MAX_TOPICS && s.topicCount <= MAX_TOPICS
  {
    match a
    case ARegister(name, now) => RegisterTopic(s, name, now)
    case APublish(flags, topicId, data, now) => DoPublish(s, flags, topicId, data, now)
    case ASubscribe(flags, topic, now) => DoSubscribe(s, flags, topic, now)
    case AUnsubscribe(flags, topic, now) => DoUnsubscribe(s, flags, topic, now)
    case ARequest(what, waitFor, now) => Request(s, Plain(what), waitFor, now)
    case ASend(what, now) => Send(s, Plain(what), now)
    case APoll(now, again) => WaitForResponse(s, now, again)
    case ATimeout => s.(waiting := true, waitFor := ADVERTISE)
    case AReceive(m, now) => Dispatch(s, m, now)
  }

  function Run(s: State, actions: seq<Action>): (s': State)
    requires |s.table| == MAX_TOPICS && s.topicCount <= MAX_TOPICS
    ensures |s'.table| == MAX_TOPICS && s'.topicCount <= MAX_TOPICS
    decreases |actions|
  {
    if actions == [] then s else Step(Run(s, actions[..|actions| - 1]), actions[|actions| - 1])
  }
}

/** What every run of the client keeps. */
module MqttSnProofs {
  import opened MqttSnSpec

  /** Which topic id the gateway gives to which name. */
  type Gateway = Name -> Id

  /** Acknowledgements answer a REGISTER that was sent, with its own message id and,
      if they accept it, the id of its name. They may be late, repeated or lost. */
  predicate Honest(gateway: Gateway, s: State, a: Action) {
    a.AReceive? && a.m.Regack? && a.m.returnCode == 0 ==>
      exists k | 0 <= k < |s.outbox| :: Answers(gateway, s.outbox[k], a.m)
  }

  predicate Answers(gateway: Gateway, sent: Out, m: In) {
    sent.Register? && m.Regack? && m.messageId == sent.messageId && m.topicId == Bswap(gateway(sent.name))
  }

  /** No two names were ever sent under one message id. */
  predicate NamesUnique(outbox: seq<Out>) {
    forall i, j | 0 <= i < |outbox| && 0 <= j < |outbox| && outbox[i].Register? && outbox[j].Register? ::
      outbox[i].messageId == outbox[j].messageId ==> outbox[i].name == outbox[j].name
  }

  /** Every committed entry pairs a name with the gateway's id for it, no id twice. */
  predicate Committed(gateway: Gateway, s: State) {
    && s.topicCount <= MAX_TOPICS - 1 < |s.table|
    && (forall i | 0 <= i < s.topicCount :: s.table[i].id == gateway(s.table[i].name))
    && (forall i, j | 0 <= i < j < s.topicCount :: s.table[i].id != s.table[j].id)
  }

  /** Which of the first 2^16 ids this is: they run from 1 up, and the last of them reads 0. */
  function Serial(id: Id): nat {
    if id == 0 then IDS else id
  }

  predicate Inv(gateway: Gateway, s: State) {
    && |s.table| == MAX_TOPICS && s.retries < 256 && s.messageId == s.issued % IDS && s.issued <= IDS
    && Committed(gateway, s)
    && NamesUnique(s.outbox)
    && (forall k | 0 <= k < |s.outbox| && s.outbox[k].Register? :: Serial(Bswap(s.outbox[k].messageId)) <= s.issued)
    && (s.buffer.Register? ==> s.buffer in s.outbox)
    // while a REGACK is awaited, whatever was registered under the current id is the pending entry
    && (s.waiting && s.waitFor == REGACK ==>
          && s.topicCount < MAX_TOPICS - 1
          && forall k | 0 <= k < |s.outbox| && s.outbox[k].Register? :: Bswap(s.outbox[k].messageId) == s.messageId ==>
                s.outbox[k].name == s.table[s.topicCount].name)
  }

  lemma InitialInv(gateway: Gateway)
    ensures Inv(gateway, Initial())
  {
  }

  /** Sending what is not a new REGISTER. */
  lemma SendKeeps(gateway: Gateway, s: State, m: Out, now: Clock)
    requires Inv(gateway, s) && (m.Register? ==> m in s.outbox)
    ensures Inv(gateway, Send(s, m, now))
  {
    var s' := Send(s, m, now);
    assert s'.outbox == s.outbox + [m];
    assert forall k | 0 <= k < |s'.outbox| && s'.outbox[k].Register? :: s'.outbox[k] in s.outbox;
    InvOutbox(gateway, s, s');
  }

  lemma InvOutbox(gateway: Gateway, s: State, s': State)
    requires Inv(gateway, s)
    requires s' == s.(outbox := s'.outbox, buffer := s'.buffer, timer := s'.timer, retries := s'.retries)
    requires s'.retries < 256 && (s'.buffer.Register? ==> s'.buffer in s'.outbox)
    requires forall k | 0 <= k < |s'.outbox| && s'.outbox[k].Register? :: s'.outbox[k] in s.outbox
    ensures Inv(gateway, s')
  {
    forall i, j | 0 <= i < |s'.outbox| && 0 <= j < |s'.outbox| && s'.outbox[i].Register? && s'.outbox[j].Register?
      ensures s'.outbox[i].messageId == s'.outbox[j].messageId ==> s'.outbox[i].name == s'.outbox[j].name
    {
      var p :| 0 <= p < |s.outbox| && s.outbox[p] == s'.outbox[i];
      var q :| 0 <= q < |s.outbox| && s.outbox[q] == s'.outbox[j];
    }
  }

  lemma WaitKeeps(gateway: Gateway, s: State, waitFor: Kind)
    requires Inv(gateway, s) && waitFor != REGACK
    ensures Inv(gateway, s.(waiting := true, waitFor := waitFor))
    ensures Inv(gateway, s.(waiting := false))
  {
  }

  lemma NextIdKeeps(gateway: Gateway, s: State)
    requires Inv(gateway, s) && s.issued < IDS
    ensures Inv(gateway, NextId(s))
    ensures Serial(NextId(s).messageId) == s.issued + 1
    ensures forall k | 0 <= k < |s.outbox| && s.outbox[k].Register? ::
              Bswap(s.outbox[k].messageId) != NextId(s).messageId
  {
  }

  /** A registration is refused exactly while a reply is awaited or the table is full; the name is never looked up.
      Committed entries stay. */
  lemma RegisterKeeps(gateway: Gateway, s: State, name: Name, now: Clock)
    requires Inv(gateway, s) && RegisterTopic(s, name, now).issued <= IDS
    ensures Inv(gateway, RegisterTopic(s, name, now))
    ensures var s' := RegisterTopic(s, name, now);
            && (s' == s <==> s.waiting || s.topicCount == MAX_TOPICS - 1)
            && s'.topicCount == s.topicCount && s'.table[..s.topicCount] == s.table[..s.topicCount]
            && (s' != s ==> s'.outbox == s.outbox + [Register(Bswap(s'.messageId), name)] && s'.issued == s.issued + 1)
  {
    var s' := RegisterTopic(s, name, now);
    if s' != s {
      var m := Register(Bswap(s'.messageId), name);
      BswapInvolutive(s'.messageId);
      NextIdKeeps(gateway, s);
      assert s'.outbox == s.outbox + [m] && s'.buffer == m;
    }
  }

  /** A REGACK that commits the entry being registered. */
  predicate Commits(s: State, m: In)
    requires m.Regack? && |s.table| == MAX_TOPICS && s.topicCount <= MAX_TOPICS
  {
    && s.waiting && s.waitFor == REGACK && m.returnCode == 0 && s.topicCount < MAX_TOPICS
    && Bswap(m.messageId) == s.messageId && !HasTopicId(s.table, s.topicCount, Bswap(m.topicId))
  }

  /** A REGACK commits the entry being registered, or changes no entry: only for the awaited message id, and never
      an id that is committed already. It sends nothing. */
  lemma RegackChanges(s: State, m: In, now: Clock)
    requires m.Regack? && |s.table| == MAX_TOPICS && s.topicCount <= MAX_TOPICS
    ensures var s' := Dispatch(s, m, now);
            && s'.topicCount == s.topicCount + (if Commits(s, m) then 1 else 0)
            && (Commits(s, m) ==> s'.table[s.topicCount] == Topic(s.table[s.topicCount].name, Bswap(m.topicId)))
            && (forall i | 0 <= i < MAX_TOPICS && (i != s.topicCount || !Commits(s, m)) :: s'.table[i] == s.table[i])
            && s'.outbox == s.outbox && s'.messageId == s.messageId
            && (s'.waiting ==> s' == s)
  {
  }

  lemma RegackKeeps(gateway: Gateway, s: State, a: Action)
    requires Inv(gateway, s) && a.AReceive? && a.m.Regack? && Honest(gateway, s, a)
    ensures Inv(gateway, Step(s, a))
  {
    var m := a.m;
    if s.waiting && s.waitFor == REGACK && m.returnCode == 0 {
      var k :| 0 <= k < |s.outbox| && Answers(gateway, s.outbox[k], m);
      BswapInvolutive(gateway(s.outbox[k].name));
    }
  }

  lemma ReceiveKeeps(gateway: Gateway, s: State, m: In, now: Clock)
    requires Inv(gateway, s) && !m.Regack? && (m.Reply? ==> m.kind != REGACK)
    ensures Inv(gateway, Dispatch(s, m, now))
  {
    hide Inv, SendMessage;
    WaitKeeps(gateway, s, ADVERTISE);
    match m
    case PublishIn(_, topicId, messageId) =>
      InvSized(gateway, s);
      SendKeeps(gateway, s, PubackFor(s, topicId, messageId), now);
      WaitKeeps(gateway, Send(s, PubackFor(s, topicId, messageId), now), ADVERTISE);
    case Pingreq =>
      SendKeeps(gateway, s, Plain("PINGRESP"), now);
      WaitKeeps(gateway, Send(s, Plain("PINGRESP"), now), ADVERTISE);
    case _ =>
  }

  lemma InvSized(gateway: Gateway, s: State)
    requires Inv(gateway, s)
    ensures |s.table| == MAX_TOPICS && s.topicCount < MAX_TOPICS
  {
  }

  /** Every honest action keeps the table right, up to the 2^16-th message id. */
  lemma StepKeeps(gateway: Gateway, s: State, a: Action)
    requires Inv(gateway, s) && WellTyped(a) && Honest(gateway, s, a)
    requires |s.table| == MAX_TOPICS && s.topicCount <= MAX_TOPICS
    requires Step(s, a).issued <= IDS
    ensures Inv(gateway, Step(s, a))
  {
    hide Inv, SendMessage, Bswap, Honest, RegackHandler, SubscriptionFlags, WantsAnswer;
    match a
    case ARegister(name, now) => RegisterKeeps(gateway, s, name, now);
    case APublish(flags, topicId, data, now) =>
      var m := Publish(flags, Bswap(topicId), Bswap((s.messageId + 1) % IDS), data);
      RequestKeeps(gateway, s, m, WantsAnswer(flags), PUBACK, now);
    case ASubscribe(flags, topic, now) =>
      var m := Subscribe(SubscriptionFlags(flags, topic), OnWire(topic), Bswap((s.messageId + 1) % IDS));
      RequestKeeps(gateway, s, m, WantsAnswer(flags), SUBACK, now);
    case AUnsubscribe(flags, topic, now) =>
      var m := Unsubscribe(SubscriptionFlags(flags, topic), OnWire(topic), Bswap((s.messageId + 1) % IDS));
      RequestKeeps(gateway, s, m, WantsAnswer(flags), UNSUBACK, now);
    case ARequest(what, waitFor, now) =>
      SendKeeps(gateway, s, Plain(what), now);
      WaitKeeps(gateway, Send(s, Plain(what), now), waitFor);
    case ASend(what, now) => SendKeeps(gateway, s, Plain(what), now);
    case APoll(now, again) => PollKeeps(gateway, s, now, again);
    case ATimeout => WaitKeeps(gateway, s, ADVERTISE);
    case AReceive(m, now) =>
      if m.Regack? {
        RegackKeeps(gateway, s, a);
      } else {
        ReceiveKeeps(gateway, s, m, now);
      }
  }

  lemma RequestKeeps(gateway: Gateway, s: State, m: Out, wait: bool, waitFor: Kind, now: Clock)
    requires Inv(gateway, s) && !m.Register? && waitFor != REGACK
    requires RequestIf(NextId(s), m, wait, waitFor, now).issued <= IDS
    ensures Inv(gateway, RequestIf(NextId(s), m, wait, waitFor, now))
  {
    NextIdKeeps(gateway, s);
    SendKeeps(gateway, NextId(s), m, now);
    WaitKeeps(gateway, Send(NextId(s), m, now), waitFor);
  }

  /** A poll sends the buffered message once more, or nothing; topics and message id stay. */
  lemma PollKeeps(gateway: Gateway, s: State, now: Clock, again: Clock)
    requires Inv(gateway, s)
    ensures Inv(gateway, WaitForResponse(s, now, again))
    ensures var s' := WaitForResponse(s, now, again);
            && s'.outbox == s.outbox + (if Expired(s, now) && s.retries > 0 then [s.buffer] else [])
            && s'.buffer == s.buffer && s'.table == s.table && s'.topicCount == s.topicCount
            && s'.messageId == s.messageId && s'.issued == s.issued
  {
    if Expired(s, now) {
      if s.retries == 0 {
        WaitKeeps(gateway, s, ADVERTISE);
      } else {
        var s' := WaitForResponse(s, now, again);
        assert s'.outbox == s.outbox + [s.buffer];
        InvOutbox(gateway, s, s');
      }
    }
  }

  predicate HonestRun(gateway: Gateway, actions: seq<Action>) {
    forall n | 0 <= n < |actions| ::
      WellTyped(actions[n]) && Honest(gateway, Run(Initial(), actions[..n]), actions[n])
  }

  lemma {:induction false} HonestBefore(gateway: Gateway, actions: seq<Action>)
    requires HonestRun(gateway, actions) && actions != []
    ensures var init, last := actions[..|actions| - 1], actions[|actions| - 1];
            HonestRun(gateway, init) && WellTyped(last) && Honest(gateway, Run(Initial(), init), last)
  {
    hide Honest, Initial, WellTyped, Run;
    var n := |actions| - 1;
    var init := actions[..n];
    forall k | 0 <= k < n
      ensures WellTyped(init[k]) && Honest(gateway, Run(Initial(), init[..k]), init[k])
    {
      assert init[k] == actions[k] && init[..k] == actions[..k];
    }
  }

  /** Over every run that issues at most 2^16 message ids, whatever acknowledgements
      are late, repeated or lost and whatever else is sent in between, the committed
      topics are the gateway's, distinct, and fewer than the table has room for. */
  lemma {:induction false} TopicsAreTheGateways(gateway: Gateway, actions: seq<Action>)
    requires HonestRun(gateway, actions) && Run(Initial(), actions).issued <= IDS
    ensures Inv(gateway, Run(Initial(), actions)) && Committed(gateway, Run(Initial(), actions))
    decreases |actions|
  {
    if actions == [] {
      InitialInv(gateway);
    } else {
      hide HonestRun, Inv, Honest, Committed, Step, Initial, WellTyped;
      var n := |actions| - 1;
      var init := actions[..n];
      HonestBefore(gateway, actions);
      IssuedGrows(Run(Initial(), init), actions[n]);
      TopicsAreTheGateways(gateway, init);
      InvSized(gateway, Run(Initial(), init));
      StepKeeps(gateway, Run(Initial(), init), actions[n]);
      InvCommitted(gateway, Run(Initial(), actions));
    }
  }

  lemma InvCommitted(gateway: Gateway, s: State)
    requires Inv(gateway, s)
    ensures Committed(gateway, s)
  {
  }

  lemma IssuedGrows(s: State, a: Action)
    requires |s.table| == MAX_TOPICS && s.topicCount <= MAX_TOPICS
    ensures s.issued <= Step(s, a).issued
  {
  }

  // ---- Why the bound on message ids is needed ----

  function Publishes(n: nat): seq<Action> {
    seq(n, _ => APublish(0, 0, [], 0))
  }

  lemma {:induction false} RunConcat(s: State, a: seq<Action>, b: seq<Action>)
    requires |s.table| == MAX_TOPICS && s.topicCount <= MAX_TOPICS
    ensures Run(s, a + b) == Run(Run(s, a), b)
    decreases |b|
  {
    if b == [] {
      assert a + b == a;
    } else {
      assert (a + b)[..|a + b| - 1] == a + b[..|b| - 1];
      RunConcat(s, a, b[..|b| - 1]);
    }
  }

  lemma PublishStep(s: State, n: nat)
    requires |s.table| == MAX_TOPICS && s.topicCount <= MAX_TOPICS && !s.waiting
    ensures var s' := Step(s, APublish(0, 0, [], 0));
            && !s'.waiting && s'.table == s.table && s'.topicCount == s.topicCount && s'.issued == s.issued + 1
            && s'.messageId == (s.messageId + 1) % IDS && s.outbox <= s'.outbox
    ensures ((n % IDS) + 1) % IDS == (n + 1) % IDS
  {
  }

  lemma {:induction false} PublishesRun(s: State, n: nat)
    requires |s.table| == MAX_TOPICS && s.topicCount <= MAX_TOPICS && !s.waiting
    ensures var s' := Run(s, Publishes(n));
            && !s'.waiting && s'.table == s.table && s'.topicCount == s.topicCount && s'.issued == s.issued + n
            && s'.messageId == (s.messageId + n) % IDS && s.outbox <= s'.outbox
    decreases n
  {
    hide Step;
    if n > 0 {
      assert Publishes(n)[..n - 1] == Publishes(n - 1);
      PublishesRun(s, n - 1);
      PublishStep(Run(s, Publishes(n - 1)), s.messageId + n - 1);
    }
  }

  /** Register `a`, lose the answer, use up the ids with publishes. */
  function Stale(a: Name): seq<Action> {
    [AReceive(Reply(ADVERTISE), 0), ARegister(a, 0), AReceive(Gwinfo, 0)] + Publishes(IDS - 1)
  }

  lemma {:induction false} StaleRun(a: Name) returns (s: State)
    ensures s == Run(Initial(), Stale(a))
    ensures |s.table| == MAX_TOPICS && s.topicCount == 0 && !s.waiting && s.messageId == 0 && s.issued == IDS
    ensures |s.outbox| > 0 && s.outbox[0] == Register(Bswap(1), a)
  {
    var s1 := HeadRun(a);
    hide Step;
    PublishesRun(s1, IDS - 1);
    RunConcat(Initial(), [AReceive(Reply(ADVERTISE), 0), ARegister(a, 0), AReceive(Gwinfo, 0)], Publishes(IDS - 1));
    s := Run(Initial(), Stale(a));
    assert s1.outbox[0] == s.outbox[0];
  }

  lemma LateRegack(gateway: Gateway, a: Name, b: Name, s: State)
    requires gateway(a) != gateway(b)
    requires |s.table| == MAX_TOPICS && s.topicCount == 0 && !s.waiting && s.messageId == 0
    requires |s.outbox| > 0 && s.outbox[0] == Register(Bswap(1), a)
    ensures var s1 := Step(s, ARegister(b, 0));
            var late := AReceive(Late(gateway, a), 0);
            && s1.topicCount <= MAX_TOPICS == |s1.table| && Honest(gateway, s1, late)
            && !Committed(gateway, Step(s1, late)) && Step(s1, late).issued == s.issued + 1
  {
    hide Committed, Bswap;
    BswapInvolutive(1);
    BswapInvolutive(gateway(a));
    var s1 := Step(s, ARegister(b, 0));
    assert s1.outbox[0] == Register(Bswap(1), a);
    assert Answers(gateway, s1.outbox[0], Late(gateway, a));
    var s2 := Step(s1, AReceive(Late(gateway, a), 0));
    assert s2.topicCount == 1 && s2.table[0] == Topic(b, gateway(a));
    Mispaired(gateway, s2);
  }

  /** The gateway's answer to the first REGISTER. */
  function Late(gateway: Gateway, a: Name): In {
    Regack(Bswap(gateway(a)), Bswap(1), 0)
  }

  lemma Mispaired(gateway: Gateway, s: State)
    requires s.topicCount == 1 && |s.table| == MAX_TOPICS && s.table[0].id != gateway(s.table[0].name)
    ensures !Committed(gateway, s)
  {
  }

  lemma {:induction false} HonestNext(gateway: Gateway, actions: seq<Action>, a: Action)
    requires HonestRun(gateway, actions) && WellTyped(a) && Honest(gateway, Run(Initial(), actions), a)
    ensures HonestRun(gateway, actions + [a])
    ensures Run(Initial(), actions + [a]) == Step(Run(Initial(), actions), a)
  {
    hide Step, Initial, Honest, WellTyped;
    var all, n := actions + [a], |actions|;
    assert all[..n] == actions;
    forall k | 0 <= k < |all|
      ensures WellTyped(all[k]) && Honest(gateway, Run(Initial(), all[..k]), all[k])
    {
      if k < n { assert all[k] == actions[k] && all[..k] == actions[..k]; }
    }
  }

  lemma {:induction false} StaleHonest(gateway: Gateway, a: Name)
    ensures HonestRun(gateway, Stale(a))
  {
    forall k | 0 <= k < |Stale(a)|
      ensures WellTyped(Stale(a)[k]) && Honest(gateway, Run(Initial(), Stale(a)[..k]), Stale(a)[k])
    {
      hide Stale, Step, Initial;
      StaleHarmless(a, k);
    }
  }

  /** Register `a`, lose the answer, use up the ids, register `b`, and then the answer comes. */
  function Mispairing(gateway: Gateway, a: Name, b: Name): seq<Action> {
    Stale(a) + [ARegister(b, 0)] + [AReceive(Late(gateway, a), 0)]
  }

  /** Once ids wrap, a REGACK that was delayed long enough commits another name under the wrong id. */
  lemma {:induction false} WrappedIdsMispair(gateway: Gateway, a: Name, b: Name)
    requires gateway(a) != gateway(b)
    ensures HonestRun(gateway, Mispairing(gateway, a, b))
    ensures !Committed(gateway, Run(Initial(), Mispairing(gateway, a, b)))
    ensures Run(Initial(), Mispairing(gateway, a, b)).issued == IDS + 1
  {
    hide Step, Committed, Stale, Initial, Run, HonestRun, Honest, Bswap;
    var s := StaleRun(a);
    LateRegack(gateway, a, b, s);
    StaleHonest(gateway, a);
    RegisterHonest(gateway, s, b);
    HonestNext(gateway, Stale(a), ARegister(b, 0));
    HonestNext(gateway, Stale(a) + [ARegister(b, 0)], AReceive(Late(gateway, a), 0));
  }

  lemma RegisterHonest(gateway: Gateway, s: State, b: Name)
    ensures Honest(gateway, s, ARegister(b, 0))
  {
  }

  /** Every run of a client and an honest gateway that issues at most `n` message ids leaves the committed topics
      right. */
  ghost predicate RightUpTo(gateway: Gateway, n: nat) {
    forall actions | HonestRun(gateway, actions) && Run(Initial(), actions).issued <= n ::
      Committed(gateway, Run(Initial(), actions))
  }

  /** The gateway has one id for all names. */
  ghost predicate Constant(gateway: Gateway) {
    forall a, b :: gateway(a) == gateway(b)
  }

  /** What such a gateway keeps without any bound: its answers cannot be told apart. */
  predicate ConstantInv(gateway: Gateway, s: State) {
    && Committed(gateway, s) && |s.table| == MAX_TOPICS
    && (s.waiting && s.waitFor == REGACK ==> s.topicCount < MAX_TOPICS - 1)
  }

  lemma ConstantStep(gateway: Gateway, s: State, a: Action)
    requires Constant(gateway) && ConstantInv(gateway, s) && WellTyped(a) && Honest(gateway, s, a)
    ensures |s.table| == MAX_TOPICS && s.topicCount <= MAX_TOPICS && ConstantInv(gateway, Step(s, a))
  {
    if a.AReceive? && a.m.Regack? {
      hide Bswap;
      RegackChanges(s, a.m, a.now);
      if Commits(s, a.m) {
        var k :| 0 <= k < |s.outbox| && Answers(gateway, s.outbox[k], a.m);
        BswapInvolutive(gateway(s.outbox[k].name));
        assert gateway(s.outbox[k].name) == gateway(s.table[s.topicCount].name);
      }
    } else {
      hide Bswap, Constant, Honest, Committed;
      SameCommitted(gateway, s, Step(s, a));
    }
  }

  lemma SameCommitted(gateway: Gateway, s: State, s': State)
    requires Committed(gateway, s) && |s.table| == |s'.table| == MAX_TOPICS
    ensures s'.topicCount == s.topicCount && s'.table[..s.topicCount] == s.table[..s.topicCount] ==>
              Committed(gateway, s')
  {
    if s'.topicCount == s.topicCount && s'.table[..s.topicCount] == s.table[..s.topicCount] {
      assert forall i | 0 <= i < s.topicCount :: s'.table[i] == s'.table[..s.topicCount][i] == s.table[i];
    }
  }

  lemma ConstantInitially(gateway: Gateway)
    ensures ConstantInv(gateway, Initial())
  {
  }

  lemma {:induction false} ConstantRun(gateway: Gateway, actions: seq<Action>)
    requires Constant(gateway) && HonestRun(gateway, actions)
    ensures ConstantInv(gateway, Run(Initial(), actions))
    decreases |actions|
  {
    if actions == [] {
      ConstantInitially(gateway);
    } else {
      hide HonestRun, Constant, ConstantInv, Honest, Committed, Step, Initial, WellTyped;
      var n := |actions| - 1;
      var init := actions[..n];
      HonestBefore(gateway, actions);
      ConstantRun(gateway, init);
      ConstantStep(gateway, Run(Initial(), init), actions[n]);
    }
  }

  /** How many message ids are safe: 2^16 and not one more, unless the gateway gives all names the same id. */
  lemma {:induction false} TopicIdsExact(gateway: Gateway, n: nat)
    ensures RightUpTo(gateway, n) <==> n <= IDS || Constant(gateway)
  {
    if n <= IDS {
      hide HonestRun, Run, Initial, Committed, Inv;
      forall actions | HonestRun(gateway, actions) && Run(Initial(), actions).issued <= n
        ensures Committed(gateway, Run(Initial(), actions))
      {
        TopicsAreTheGateways(gateway, actions);
      }
    } else if Constant(gateway) {
      hide HonestRun, Run, Initial, Committed, Constant;
      forall actions | HonestRun(gateway, actions) && Run(Initial(), actions).issued <= n
        ensures Committed(gateway, Run(Initial(), actions))
      {
        ConstantRun(gateway, actions);
      }
    } else {
      hide HonestRun, Run, Initial, Committed, Mispairing;
      var a, b :| gateway(a) != gateway(b);
      WrappedIdsMispair(gateway, a, b);
    }
  }

  lemma StaleHarmless(a: Name, k: nat)
    requires k < |Stale(a)|
    ensures WellTyped(Stale(a)[k]) && !(Stale(a)[k].AReceive? && Stale(a)[k].m.Regack?)
  {
    if k >= 3 { assert Stale(a)[k] == Publishes(IDS - 1)[k - 3]; }
  }

  lemma HeadRun(a: Name) returns (s: State)
    ensures s == Run(Initial(), [AReceive(Reply(ADVERTISE), 0), ARegister(a, 0), AReceive(Gwinfo, 0)])
    ensures |s.table| == MAX_TOPICS && s.topicCount == 0 && !s.waiting && s.messageId == 1 && s.issued == 1
    ensures s.outbox == [Register(Bswap(1), a)]
  {
    var actions := [AReceive(Reply(ADVERTISE), 0), ARegister(a, 0), AReceive(Gwinfo, 0)];
    var s0 := Initial();
    var s1 := Step(s0, actions[0]);
    var s2 := Step(s1, actions[1]);
    s := Step(s2, actions[2]);
    assert actions[..3] == actions && actions[..3][..2] == actions[..2];
    assert actions[..2][..1] == actions[..1] && actions[..1][..0] == [];
    assert Run(s0, actions[..1]) == s1;
    assert Run(s0, actions[..2]) == s2;
  }
}

/** Retransmission of an unanswered request. */
module MqttSnRetry {
  import opened MqttSnSpec

  const T_RETRY_MS: nat := T_RETRY * 1000

  /** Polling `wait_for_response`, with the two clock readings of each call. */
  function Polls(s: State, clocks: seq<(Clock, Clock)>): State
    decreases |clocks|
  {
    if clocks == [] then s else Polls(WaitForResponse(s, clocks[0].0, clocks[0].1), clocks[1..])
  }

  /** How many of the polls find the wait expired. */
  function Expiries(s: State, clocks: seq<(Clock, Clock)>): nat
    decreases |clocks|
  {
    if clocks == [] then 0
    else
      var s1 := WaitForResponse(s, clocks[0].0, clocks[0].1);
      (if Expired(s, clocks[0].0) then 1 else 0) + Expiries(s1, clocks[1..])
  }

  function Repeat(m: Out, n: nat): seq<Out> {
    seq(n, _ => m)
  }

  lemma {:induction false} NotWaiting(s: State, clocks: seq<(Clock, Clock)>)
    requires !s.waiting
    ensures Polls(s, clocks) == s && Expiries(s, clocks) == 0
    decreases |clocks|
  {
    if clocks != [] { NotWaiting(s, clocks[1..]); }
  }

  /** Each expiry but the last repeats the buffered message; the one after the
      retries are used up ends the wait and reports the loss, once and for all. */
  lemma {:induction false} RetrySchedule(s: State, clocks: seq<(Clock, Clock)>)
    requires s.waiting && s.retries < 256
    ensures var e, s' := Expiries(s, clocks), Polls(s, clocks);
            && e <= s.retries + 1
            && s'.outbox == s.outbox + Repeat(s.buffer, if e <= s.retries then e else s.retries)
            && s'.lostGateway == s.lostGateway + (if e <= s.retries then 0 else 1)
            && s'.waiting == (e <= s.retries)
            && s'.buffer == s.buffer && s'.table == s.table && s'.topicCount == s.topicCount
            && s'.messageId == s.messageId
    decreases |clocks|
  {
    if clocks != [] {
      var (now, again) := clocks[0];
      var s1 := WaitForResponse(s, now, again);
      if Expired(s, now) {
        if s.retries == 0 {
          NotWaiting(s1, clocks[1..]);
          assert Repeat(s.buffer, 0) == [];
        } else {
          assert s1.retries == s.retries - 1;
          RetrySchedule(s1, clocks[1..]);
          var e1 := Expiries(s1, clocks[1..]);
          var n1 := if e1 <= s1.retries then e1 else s1.retries;
          assert [s.buffer] + Repeat(s.buffer, n1) == Repeat(s.buffer, n1 + 1);
        }
      } else {
        RetrySchedule(s, clocks[1..]);
      }
    }
  }

  /** A request started while idle and never answered goes out once and is then
      repeated unchanged exactly N_RETRY times before the gateway is given up. */
  lemma RequestRetried(s: State, m: Out, waitFor: Kind, now: Clock, clocks: seq<(Clock, Clock)>)
    requires !s.waiting
    ensures var s1 := Request(s, m, waitFor, now);
            var e, s' := Expiries(s1, clocks), Polls(s1, clocks);
            && e <= N_RETRY + 1
            && s'.outbox == s.outbox + Repeat(m, 1 + if e <= N_RETRY then e else N_RETRY)
            && s'.lostGateway == s.lostGateway + (if e <= N_RETRY then 0 else 1)
            && s'.waiting == (e <= N_RETRY)
  {
    var s1 := Request(s, m, waitFor, now);
    RetrySchedule(s1, clocks);
    var e := Expiries(s1, clocks);
    var n := if e <= N_RETRY then e else N_RETRY;
    assert [m] + Repeat(m, n) == Repeat(m, n + 1);
  }

  // ---- Real time: the 32-bit clock may wrap between polls ----

  function Wrap(t: nat): Clock {
    t % CLOCK
  }

  function WrapAll(times: seq<(nat, nat)>): seq<(Clock, Clock)> {
    seq(|times|, i requires 0 <= i < |times| => (Wrap(times[i].0), Wrap(times[i].1)))
  }

  /** The expiries counted on an unbounded clock, for a timer started at `start`. */
  function RealExpiries(start: nat, retries: nat, times: seq<(nat, nat)>): nat
    decreases |times|
  {
    if times == [] then 0
    else if times[0].0 <= start + T_RETRY_MS then RealExpiries(start, retries, times[1..])
    else 1 + if retries == 0 then 0 else RealExpiries(times[0].1, retries - 1, times[1..])
  }

  /** Time does not run backwards, and polls come less than a clock period apart (minus one time-out). */
  predicate WellSpaced(readFirst: nat, readLast: nat, times: seq<(nat, nat)>)
    decreases |times|
  {
    times != [] ==>
      && readLast <= times[0].0 <= times[0].1
      && times[0].0 - readFirst < CLOCK - T_RETRY_MS
      && WellSpaced(times[0].0, times[0].1, times[1..])
  }

  lemma ElapsedIsReal(start: nat, t: nat)
    requires start <= t < start + CLOCK
    ensures Elapsed(Wrap(t), Wrap(start)) == t - start
  {
  }

  /** The wrapping clock expires exactly when the real one does. */
  lemma {:induction false} WrappingClockIsExact(s: State, start: nat, readFirst: nat, readLast: nat,
                                                times: seq<(nat, nat)>)
    requires s.waiting && s.retries < 256 && s.timer == Wrap(start)
    requires start <= readLast && readFirst <= start + T_RETRY_MS && WellSpaced(readFirst, readLast, times)
    ensures Expiries(s, WrapAll(times)) == RealExpiries(start, s.retries, times)
    decreases |times|
  {
    if times != [] {
      var (t, again) := times[0];
      var clocks := WrapAll(times);
      assert clocks[1..] == WrapAll(times[1..]);
      ElapsedIsReal(start, t);
      var s1 := WaitForResponse(s, Wrap(t), Wrap(again));
      if Expired(s, Wrap(t)) {
        if s.retries == 0 {
          NotWaiting(s1, clocks[1..]);
        } else {
          WrappingClockIsExact(s1, again, t, again, times[1..]);
        }
      } else {
        WrappingClockIsExact(s, start, t, again, times[1..]);
      }
    }
  }
}
