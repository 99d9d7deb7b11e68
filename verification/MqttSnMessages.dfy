/** What the client's messages carry, and what ends a wait. */
module MqttSnMessages {
  import opened MqttSnProofs
  import opened MqttSnSpec

  // ---- Message ids ----

  /** Messages that carry an id of this client. */
  predicate HasId(m: Out) {
    m.Register? || m.Publish? || m.Subscribe? || m.Unsubscribe?
  }

  /** The id as the gateway reads it. */
  function IdOf(m: Out): Id
    requires HasId(m)
  {
    Bswap(m.messageId)
  }

  predicate Issued(s: State, m: Out) {
    HasId(m) ==> Serial(IdOf(m)) <= s.issued
  }

  /** Every id on the air is one of those issued so far. */
  predicate IdsInv(s: State) {
    && s.messageId == s.issued % IDS && s.issued <= IDS
    && Issued(s, s.buffer) && forall k | 0 <= k < |s.outbox| :: Issued(s, s.outbox[k])
  }

  /** A step sends at most one message: what its buffer holds then, which is new, or what it held before. */
  predicate SendsBuffer(s: State, s': State) {
    && (s'.outbox == s.outbox || s'.outbox == s.outbox + [s'.buffer])
    && if s'.issued == s.issued then s'.messageId == s.messageId && (s'.buffer == s.buffer || !HasId(s'.buffer))
       else
         && s'.issued == s.issued + 1 && s'.messageId == (s.messageId + 1) % IDS
         && s'.outbox == s.outbox + [s'.buffer] && HasId(s'.buffer) && IdOf(s'.buffer) == s'.messageId
  }

  lemma RequestSends(s: State, m: Out, wait: bool, waitFor: Kind, now: Clock)
    requires HasId(m) && m.messageId == Bswap(NextId(s).messageId)
    ensures SendsBuffer(s, RequestIf(NextId(s), m, wait, waitFor, now))
  {
    BswapInvolutive(NextId(s).messageId);
    hide Bswap;
  }

  lemma StepSends(s: State, a: Action)
    requires |s.table| == MAX_TOPICS && s.topicCount <= MAX_TOPICS
    ensures SendsBuffer(s, Step(s, a))
  {
    hide Bswap, WantsAnswer, SubscriptionFlags, HasTopicId, Expired;
    var id := Bswap((s.messageId + 1) % IDS);
    match a
    case ARegister(name, now) => RequestSends(s, Register(id, name), true, REGACK, now);
    case APublish(flags, topicId, data, now) =>
      RequestSends(s, Publish(flags, Bswap(topicId), id, data), WantsAnswer(flags), PUBACK, now);
    case ASubscribe(flags, topic, now) =>
      RequestSends(s, Subscribe(SubscriptionFlags(flags, topic), OnWire(topic), id), WantsAnswer(flags), SUBACK, now);
    case AUnsubscribe(flags, topic, now) =>
      var m := Unsubscribe(SubscriptionFlags(flags, topic), OnWire(topic), id);
      RequestSends(s, m, WantsAnswer(flags), UNSUBACK, now);
    case _ =>
  }

  lemma IdsStep(s: State, s': State)
    requires IdsInv(s) && SendsBuffer(s, s') && s'.issued <= IDS
    ensures IdsInv(s')
    ensures s'.issued > s.issued ==>
              Serial(s'.messageId) == s'.issued
              && forall k | 0 <= k < |s.outbox| && HasId(s.outbox[k]) :: IdOf(s.outbox[k]) != s'.messageId
  {
    hide IdOf;
  }

  lemma {:induction false} RunIds(actions: seq<Action>)
    requires Run(Initial(), actions).issued <= IDS
    ensures IdsInv(Run(Initial(), actions))
    decreases |actions|
  {
    if actions != [] {
      hide Step, Initial, IdsInv, SendsBuffer;
      var n := |actions| - 1;
      var s := Run(Initial(), actions[..n]);
      IssuedGrows(s, actions[n]);
      RunIds(actions[..n]);
      StepSends(s, actions[n]);
      IdsStep(s, Step(s, actions[n]));
    }
  }

  /** A request that issues an id sends exactly one message, under an id that no message of the run had, and only within
      the first 2^16 ids. */
  lemma {:induction false} RequestsAreNew(actions: seq<Action>, a: Action)
    requires Run(Initial(), actions).issued < IDS
    requires Step(Run(Initial(), actions), a).issued != Run(Initial(), actions).issued
    ensures var s := Run(Initial(), actions);
            var s' := Step(s, a);
            && |s'.outbox| == |s.outbox| + 1 && s'.outbox[..|s.outbox|] == s.outbox
            && HasId(s'.outbox[|s.outbox|]) && IdOf(s'.outbox[|s.outbox|]) == s'.messageId
            && (forall k | 0 <= k < |s.outbox| && HasId(s.outbox[k]) :: IdOf(s.outbox[k]) != s'.messageId)
  {
    hide Step, Initial, Run, IdOf, HasId;
    var s := Run(Initial(), actions);
    RunIds(actions);
    StepSends(s, a);
    IdsStep(s, Step(s, a));
  }

  // ---- Publishing ----

  /** Bits 5 and 6 of the flags are the quality of service, and 1 and 2 are the ones that are acknowledged. */
  lemma AcknowledgedQos(flags: bv8)
    ensures WantsAnswer(flags) <==> (flags >> 5) & 3 == 1 || (flags >> 5) & 3 == 2
  {
  }

  /** The kind of answer that is waited for from now on. */
  predicate Awaits(s: State, s': State, due: bool, kind: Kind) {
    if due then s'.waiting && s'.waitFor == kind else s'.waiting == s.waiting && s'.waitFor == s.waitFor
  }

  /** Over every honest run up to 2^16 ids: publishing on a committed topic sends one message. The gateway reads in it
      its own id for the topic's name and a message id that no request had before, and the caller's flags and data; then
      the client waits for a PUBACK exactly when QoS 1 or 2 was asked for, and else as before. */
  lemma {:induction false} PublishReaches(gateway: Gateway, actions: seq<Action>, i: nat, flags: bv8, data: seq<bv8>,
                                          now: Clock)
    requires HonestRun(gateway, actions) && Run(Initial(), actions).issued < IDS
    requires i < Run(Initial(), actions).topicCount
    ensures var s := Run(Initial(), actions);
            var s' := Step(s, APublish(flags, s.table[i].id, data, now));
            && |s'.outbox| == |s.outbox| + 1 && s'.outbox[..|s.outbox|] == s.outbox &&
            var m := s'.outbox[|s.outbox|];
            && m.Publish? && m.flags == flags && m.data == data
            && Bswap(m.topicId) == gateway(s.table[i].name)
            && IdOf(m) == s'.messageId
            && (forall k | 0 <= k < |s.outbox| && HasId(s.outbox[k]) :: IdOf(s.outbox[k]) != IdOf(m))
            && Awaits(s, s', (flags >> 5) & 3 == 1 || (flags >> 5) & 3 == 2, PUBACK)
            && s'.table == s.table && s'.topicCount == s.topicCount
  {
    hide HonestRun, Initial, Run, IdOf, Inv, HasId;
    var s := Run(Initial(), actions);
    TopicsAreTheGateways(gateway, actions);
    CommittedAt(gateway, s, i);
    PublishContents(s, flags, s.table[i].id, data, now);
    RequestsAreNew(actions, APublish(flags, s.table[i].id, data, now));
    AcknowledgedQos(flags);
    hide Step, WantsAnswer;
  }

  lemma CommittedAt(gateway: Gateway, s: State, i: nat)
    requires Committed(gateway, s) && i < s.topicCount
    ensures s.table[i].id == gateway(s.table[i].name)
  {
  }

  lemma PublishContents(s: State, flags: bv8, topicId: Id, data: seq<bv8>, now: Clock)
    requires |s.table| == MAX_TOPICS && s.topicCount <= MAX_TOPICS
    ensures var s' := Step(s, APublish(flags, topicId, data, now));
            && |s'.outbox| == |s.outbox| + 1 && s'.issued == s.issued + 1 &&
            var m := s'.outbox[|s.outbox|];
            && m.Publish? && m.flags == flags && m.data == data && Bswap(m.topicId) == topicId
            && Awaits(s, s', WantsAnswer(flags), PUBACK)
            && s'.table == s.table && s'.topicCount == s.topicCount
  {
    BswapInvolutive(topicId);
    hide Bswap, WantsAnswer;
  }

  /** The gateway reads the topic as it was named. */
  predicate Names(read: Target, topic: Target) {
    match topic
    case ByName(name) => read == ByName(name)
    case ById(id) => read.ById? && Bswap(read.id) == id
  }

  /** The quality of service asked for in bits 5 and 6, bit 0 for a topic named by its id, and nothing else. */
  predicate AsksFor(sent: bv8, flags: bv8, topic: Target) {
    sent >> 5 == (flags >> 5) & 3 && (sent & 0x1f == if topic.ById? then 1 else 0)
  }

  /** Subscribing: one message under a new id, with the quality of service asked for and the topic as it was named, and
      the wait for the acknowledgement as for a publish. */
  lemma SubscribeContents(s: State, flags: bv8, topic: Target, now: Clock)
    requires |s.table| == MAX_TOPICS && s.topicCount <= MAX_TOPICS
    ensures var s' := Step(s, ASubscribe(flags, topic, now));
            && |s'.outbox| == |s.outbox| + 1 && s'.issued == s.issued + 1 &&
            var m := s'.outbox[|s.outbox|];
            && m.Subscribe? && Names(m.topic, topic) && AsksFor(m.flags, flags, topic)
            && Awaits(s, s', WantsAnswer(flags), SUBACK)
  {
    SubscriptionBits(flags, topic);
    NamedOnWire(topic);
    hide Bswap, WantsAnswer, SubscriptionFlags, AsksFor, Names, OnWire;
  }

  /** Unsubscribing likewise. */
  lemma UnsubscribeContents(s: State, flags: bv8, topic: Target, now: Clock)
    requires |s.table| == MAX_TOPICS && s.topicCount <= MAX_TOPICS
    ensures var s' := Step(s, AUnsubscribe(flags, topic, now));
            && |s'.outbox| == |s.outbox| + 1 && s'.issued == s.issued + 1 &&
            var m := s'.outbox[|s.outbox|];
            && m.Unsubscribe? && Names(m.topic, topic) && AsksFor(m.flags, flags, topic)
            && Awaits(s, s', WantsAnswer(flags), UNSUBACK)
  {
    SubscriptionBits(flags, topic);
    NamedOnWire(topic);
    hide Bswap, WantsAnswer, SubscriptionFlags, AsksFor, Names, OnWire;
  }

  lemma SubscriptionBits(flags: bv8, topic: Target)
    ensures AsksFor(SubscriptionFlags(flags, topic), flags, topic)
  {
  }

  lemma NamedOnWire(topic: Target)
    ensures Names(OnWire(topic), topic)
  {
    if topic.ById? {
      BswapInvolutive(topic.id);
    }
    hide Bswap;
  }

  // ---- Registering ----

  /** A registration that is not refused stages its name, waits for the REGACK and starts the timer. */
  lemma RegistrationStages(s: State, name: Name, now: Clock)
    requires |s.table| == MAX_TOPICS && s.topicCount <= MAX_TOPICS && !s.waiting && s.topicCount < MAX_TOPICS - 1
    ensures var s' := Step(s, ARegister(name, now));
            && |s'.table| == MAX_TOPICS && s'.topicCount == s.topicCount && s'.table[s.topicCount].name == name
            && s'.table[..s.topicCount] == s.table[..s.topicCount]
            && Awaits(s, s', true, REGACK) && s'.timer == now && s'.retries == 5 && s'.issued == s.issued + 1
  {
    hide Bswap;
  }

  /** What comes of a registration in `s` that the gateway answers: the name is committed with the gateway's id for it,
      unless a committed name has the same id; either way the wait is over. */
  predicate NameCommitted(gateway: Gateway, s: State, name: Name, now: Clock, later: Clock)
    requires |s.table| == MAX_TOPICS && s.topicCount <= MAX_TOPICS
  {
    var s1 := Step(s, ARegister(name, now));
    && |s1.table| == MAX_TOPICS && s1.topicCount <= MAX_TOPICS &&
    var s' := Step(s1, AReceive(Regack(Bswap(gateway(name)), Bswap(s1.messageId), 0), later));
    && !s'.waiting
    && if exists i | 0 <= i < s.topicCount :: gateway(s.table[i].name) == gateway(name)
       then s'.topicCount == s.topicCount
       else
         && s'.topicCount == s.topicCount + 1 && |s'.table| == MAX_TOPICS
         && s'.table[s.topicCount] == Topic(name, gateway(name))
  }

  lemma CommitsFrom(gateway: Gateway, s: State, name: Name, now: Clock, later: Clock)
    requires |s.table| == MAX_TOPICS && Committed(gateway, s) && !s.waiting && s.topicCount < MAX_TOPICS - 1
    ensures NameCommitted(gateway, s, name, now, later)
  {
    RegistrationStages(s, name, now);
    var s1 := Step(s, ARegister(name, now));
    var m := Regack(Bswap(gateway(name)), Bswap(s1.messageId), 0);
    BswapInvolutive(gateway(name));
    BswapInvolutive(s1.messageId);
    SameIds(gateway, s, s1, gateway(name));
    hide Step, Bswap, Committed, HasTopicId;
    AnswerTaken(s1, m, later);
  }

  /** That holds over every honest run up to 2^16 ids. */
  lemma {:induction false} RegistrationCommits(gateway: Gateway, actions: seq<Action>, name: Name, now: Clock,
                                               later: Clock)
    requires HonestRun(gateway, actions) && Run(Initial(), actions).issued < IDS
    requires !Run(Initial(), actions).waiting && Run(Initial(), actions).topicCount < MAX_TOPICS - 1
    ensures NameCommitted(gateway, Run(Initial(), actions), name, now, later)
  {
    hide HonestRun, Initial, Run, Inv, Committed, NameCommitted;
    TopicsAreTheGateways(gateway, actions);
    CommitsFrom(gateway, Run(Initial(), actions), name, now, later);
  }

  lemma AnswerTaken(s: State, m: In, now: Clock)
    requires |s.table| == MAX_TOPICS && s.topicCount < MAX_TOPICS && s.waiting && s.waitFor == REGACK
    requires m.Regack? && m.returnCode == 0 && Bswap(m.messageId) == s.messageId
    ensures var s' := Step(s, AReceive(m, now));
            && !s'.waiting && |s'.table| == MAX_TOPICS
            && if HasTopicId(s.table, s.topicCount, Bswap(m.topicId)) then s'.topicCount == s.topicCount
               else s'.topicCount == s.topicCount + 1
                    && s'.table[s.topicCount] == Topic(s.table[s.topicCount].name, Bswap(m.topicId))
  {
    hide Bswap, HasTopicId;
  }

  lemma SameIds(gateway: Gateway, s: State, s1: State, id: Id)
    requires Committed(gateway, s) && s1.topicCount == s.topicCount && |s1.table| == |s.table|
    requires s1.table[..s.topicCount] == s.table[..s.topicCount]
    ensures HasTopicId(s1.table, s1.topicCount, id) <==>
            exists i | 0 <= i < s.topicCount :: gateway(s.table[i].name) == id
  {
    assert forall i | 0 <= i < s.topicCount :: s1.table[i] == s1.table[..s.topicCount][i] == s.table[i];
    if HasTopicId(s1.table, s1.topicCount, id) {
      var i :| 0 <= i < s.topicCount && s1.table[i].id == id;
      assert gateway(s.table[i].name) == id;
    }
  }

  // ---- Sending and waiting ----

  /** Whatever is sent while nothing is awaited starts the timer with all retries; while something is awaited neither
      changes. */
  lemma SendStartsTimer(s: State, m: Out, now: Clock)
    ensures var s' := Send(s, m, now);
            && s'.outbox == s.outbox + [m] && s'.buffer == m && s'.waiting == s.waiting && s'.waitFor == s.waitFor
            && (if s.waiting then s'.timer == s.timer && s'.retries == s.retries
                else s'.timer == now && s'.retries == 5)
  {
  }

  /** The other requests carry what they are and wait for their own answer; a will is sent without waiting; a time-out
      of the caller's only waits for an ADVERTISE. None of them issues an id or touches a topic. */
  lemma PlainContents(s: State, what: string, waitFor: Kind, now: Clock)
    requires |s.table| == MAX_TOPICS && s.topicCount <= MAX_TOPICS
    ensures var s' := Step(s, ARequest(what, waitFor, now));
            s'.outbox == s.outbox + [Plain(what)] && Awaits(s, s', true, waitFor)
            && s'.issued == s.issued && s'.table == s.table && s'.topicCount == s.topicCount
    ensures var s' := Step(s, ASend(what, now));
            s'.outbox == s.outbox + [Plain(what)] && Awaits(s, s', false, waitFor)
            && s'.issued == s.issued && s'.table == s.table && s'.topicCount == s.topicCount
    ensures var s' := Step(s, ATimeout);
            s' == s.(waiting := true, waitFor := s'.waitFor) && s'.waitFor == ADVERTISE
  {
  }

  /** The messages that end a wait whatever is waited for. */
  predicate EndsAnyWait(m: In) {
    m.Gwinfo? || m.WillRequest? || m.Pingreq? || m.Disconnect? || m.PublishIn?
  }

  /** A wait is ended by the answer that is waited for and by those messages, and by nothing else that is received. */
  lemma ReceivingEndsWait(s: State, m: In, now: Clock)
    requires |s.table| == MAX_TOPICS && s.topicCount <= MAX_TOPICS && s.waiting
    ensures Dispatch(s, m, now).waiting <==>
            !EndsAnyWait(m) && !(m.Regack? && s.waitFor == REGACK) && !(m.Reply? && m.kind == s.waitFor)
    ensures Dispatch(s, m, now).waitFor == s.waitFor
  {
    hide HasTopicId, Bswap;
  }

  /** A ping is answered, a publish that asks for it is acknowledged, and nothing else that is received makes the
      client send. The acknowledgement accepts exactly the committed topics, but the gateway reads its own ids in it
      byte-swapped: it finds them exactly when their two bytes are equal. */
  lemma ReceivingSends(s: State, m: In, now: Clock)
    requires |s.table| == MAX_TOPICS && s.topicCount <= MAX_TOPICS
    ensures var s' := Dispatch(s, m, now);
            if m.Pingreq? then s'.outbox == s.outbox + [Plain("PINGRESP")]
            else if m.PublishIn? && m.qos1 then
              && |s'.outbox| == |s.outbox| + 1 && s'.outbox[..|s.outbox|] == s.outbox &&
              var ack := s'.outbox[|s.outbox|];
              && ack.Puback?
              && (ack.accepted <==> exists i | 0 <= i < s.topicCount :: s.table[i].id == Bswap(m.topicId))
              && (ack.topicId == m.topicId <==> m.topicId / 0x100 == m.topicId % 0x100)
              && (ack.messageId == m.messageId <==> m.messageId / 0x100 == m.messageId % 0x100)
            else s'.outbox == s.outbox
    ensures var s' := Dispatch(s, m, now); !m.Regack? ==> s'.table == s.table && s'.topicCount == s.topicCount
  {
    if m.PublishIn? {
      SwappedTwin(m.topicId);
      SwappedTwin(m.messageId);
    }
    hide Bswap;
  }

  lemma SwappedTwin(id: Id)
    ensures Bswap(id) == id <==> id / 0x100 == id % 0x100
  {
  }
}
