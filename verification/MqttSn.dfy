/** The MQTT-SN client object. Each method is proved to take the step of the same
    name in MqttSnSpec. */
module MqttSn {
  import opened MqttSnSpec
  import Proofs = MqttSnProofs

  class Client {
    var waitingForResponse: bool
    var responseToWaitFor: Kind
    var messageId: Id
    var topicCount: nat
    const topicTable: array<Topic>
    var messageBuffer: Out
    var responseTimer: Clock
    var responseRetries: nat
    // history: what has gone to the radio, lost gateways reported, ids issued
    ghost var outbox: seq<Out>
    ghost var lostGateway: nat
    ghost var issued: nat

    constructor ()
      ensures Valid() && View() == Initial() && fresh(topicTable)
    {
      waitingForResponse, responseToWaitFor := true, ADVERTISE;
      messageId, topicCount := 0, 0;
      topicTable := new Topic[MAX_TOPICS](_ => Topic("", 0));
      messageBuffer, responseTimer, responseRetries := Plain(""), 0, 0;
      outbox, lostGateway, issued := [], 0, 0;
      new;
      assert topicTable[..] == seq(MAX_TOPICS, _ => Topic("", 0));
    }

    ghost predicate Valid()
      reads this
    {
      topicTable.Length == MAX_TOPICS && topicCount <= MAX_TOPICS && responseRetries < 256
    }

    ghost function View(): State
      reads this, topicTable
    {
      State(waitingForResponse, responseToWaitFor, messageId, topicCount, topicTable[..], messageBuffer,
            responseTimer, responseRetries, outbox, lostGateway, issued)
    }

    /** `send_message`: hand the buffer to the radio; a fresh request starts the timer. */
    method SendMessage(now: Clock)
      requires Valid()
      modifies this
      ensures Valid() && View() == MqttSnSpec.SendMessage(old(View()), now)
    {
      outbox := outbox + [messageBuffer];
      if !waitingForResponse {
        responseTimer := now;
        responseRetries := N_RETRY;
      }
    }

    /** `wait_for_response` */
    method WaitForResponse(now: Clock, again: Clock) returns (waiting: bool)
      requires Valid()
      modifies this
      ensures Valid() && View() == MqttSnSpec.WaitForResponse(old(View()), now, again)
      ensures waiting == waitingForResponse
    {
      if waitingForResponse {
        if Elapsed(now, responseTimer) > T_RETRY * 1000 {
          responseTimer := again;
          if responseRetries == 0 {
            waitingForResponse := false;
            lostGateway := lostGateway + 1;
          } else {
            SendMessage(again);
          }
          responseRetries := if responseRetries == 0 then 255 else responseRetries - 1;
        }
      }
      waiting := waitingForResponse;
    }

    /** `find_topic_id`: the id of the first committed entry with this name, 0xffff if there is none. */
    method FindTopicId(name: Name) returns (id: Id, index: nat)
      requires Valid()
      ensures index <= topicCount
      ensures forall i | 0 <= i < index :: topicTable[i].name != name
      ensures index < topicCount ==> topicTable[index].name == name && id == topicTable[index].id
      ensures index == topicCount ==> id == 0xffff
    {
      for i := 0 to topicCount
        invariant forall k | 0 <= k < i :: topicTable[k].name != name
      {
        if topicTable[i].name == name {
          return topicTable[i].id, i;
        }
      }
      return 0xffff, topicCount;
    }

    /** `register_topic` */
    method RegisterTopic(name: Name, now: Clock) returns (registered: bool)
      requires Valid()
      modifies this, topicTable
      ensures Valid() && View() == MqttSnSpec.RegisterTopic(old(View()), name, now)
      ensures registered <==> !old(waitingForResponse) && old(topicCount) < MAX_TOPICS - 1
    {
      hide Bswap;
      if !waitingForResponse && topicCount < MAX_TOPICS - 1 {
        messageId, issued := (messageId + 1) % IDS, issued + 1;
        topicTable[topicCount] := Topic(name, 0);
        messageBuffer := Register(Bswap(messageId), name);
        SendMessage(now);
        waitingForResponse, responseToWaitFor := true, REGACK;
        return true;
      }
      return false;
    }

    /** The loop over the committed entries of `regack_handler` and `publish_handler`. */
    method HasTopic(topicId: Id) returns (found: bool)
      requires Valid()
      ensures found <==> HasTopicId(topicTable[..], topicCount, topicId)
    {
      found := false;
      var i := 0;
      while i < topicCount
        invariant i <= topicCount && !found
        invariant !HasTopicId(topicTable[..], i, topicId)
      {
        if topicTable[i].id == topicId {
          assert topicTable[..][i].id == topicId;
          return true;
        }
        i := i + 1;
      }
    }

    /** `regack_handler` */
    method RegackHandler(topicIdOnWire: Id, messageIdOnWire: Id, returnCode: nat)
      requires Valid()
      modifies this`topicCount, topicTable
      ensures Valid() && View() == MqttSnSpec.RegackHandler(old(View()), topicIdOnWire, messageIdOnWire, returnCode)
    {
      if returnCode == 0 && topicCount < MAX_TOPICS && Bswap(messageIdOnWire) == messageId {
        var topicId := Bswap(topicIdOnWire);
        var foundTopic := HasTopic(topicId);
        if !foundTopic {
          topicTable[topicCount] := topicTable[topicCount].(id := topicId);
          topicCount := topicCount + 1;
        }
      }
    }

    /** `dispatch` */
    method Dispatch(m: In, now: Clock)
      requires Valid()
      modifies this, topicTable
      ensures Valid() && View() == MqttSnSpec.Dispatch(old(View()), m, now)
    {
      var handled := true;
      match m {
        case Regack(topicId, messageIdOnWire, returnCode) =>
          if waitingForResponse && responseToWaitFor == REGACK {
            RegackHandler(topicId, messageIdOnWire, returnCode);
          } else {
            handled := false;
          }
        case Reply(kind) =>
          handled := waitingForResponse && responseToWaitFor == kind;
        case PublishIn(qos1, topicId, messageIdOnWire) =>
          if qos1 {
            var found := HasTopic(Bswap(topicId));
            messageBuffer := Puback(Bswap(topicId), Bswap(messageIdOnWire), found);
            SendMessage(now);
          }
        case Pingreq =>
          messageBuffer := Plain("PINGRESP");
          SendMessage(now);
        case Gwinfo =>
        case WillRequest =>
        case Disconnect =>
        case Unknown =>
          return;
      }
      if handled {
        waitingForResponse := false;
      }
    }

    /** `publish` */
    method DoPublish(flags: bv8, topicId: Id, data: seq<bv8>, now: Clock)
      requires Valid()
      modifies this
      ensures Valid() && View() == MqttSnSpec.DoPublish(old(View()), flags, topicId, data, now)
    {
      hide Bswap, WantsAnswer, SubscriptionFlags, OnWire;
      messageId, issued := (messageId + 1) % IDS, issued + 1;
      messageBuffer := Publish(flags, Bswap(topicId), Bswap(messageId), data);
      SendMessage(now);
      if WantsAnswer(flags) {
        waitingForResponse, responseToWaitFor := true, PUBACK;
      }
    }

    /** `subscribe_by_name`, `subscribe_by_id` */
    method DoSubscribe(flags: bv8, topic: Target, now: Clock)
      requires Valid()
      modifies this
      ensures Valid() && View() == MqttSnSpec.DoSubscribe(old(View()), flags, topic, now)
    {
      hide Bswap, WantsAnswer, SubscriptionFlags, OnWire;
      messageId, issued := (messageId + 1) % IDS, issued + 1;
      messageBuffer := Subscribe(SubscriptionFlags(flags, topic), OnWire(topic), Bswap(messageId));
      SendMessage(now);
      if WantsAnswer(flags) {
        waitingForResponse, responseToWaitFor := true, SUBACK;
      }
    }

    /** `searchgw`, `connect`, `disconnect`, `pingreq` */
    method DoRequest(what: string, waitFor: Kind, now: Clock)
      requires Valid()
      modifies this
      ensures Valid() && View() == Request(old(View()), Plain(what), waitFor, now)
    {
      messageBuffer := Plain(what);
      SendMessage(now);
      waitingForResponse, responseToWaitFor := true, waitFor;
    }

    /** `unsubscribe_by_name`, `unsubscribe_by_id` */
    method DoUnsubscribe(flags: bv8, topic: Target, now: Clock)
      requires Valid()
      modifies this
      ensures Valid() && View() == MqttSnSpec.DoUnsubscribe(old(View()), flags, topic, now)
    {
      hide Bswap, WantsAnswer, SubscriptionFlags, OnWire;
      messageId, issued := (messageId + 1) % IDS, issued + 1;
      messageBuffer := Unsubscribe(SubscriptionFlags(flags, topic), OnWire(topic), Bswap(messageId));
      SendMessage(now);
      if WantsAnswer(flags) {
        waitingForResponse, responseToWaitFor := true, UNSUBACK;
      }
    }

    /** `willtopic`, `willmsg` */
    method DoSend(what: string, now: Clock)
      requires Valid()
      modifies this
      ensures Valid() && View() == Send(old(View()), Plain(what), now)
    {
      messageBuffer := Plain(what);
      SendMessage(now);
    }

    /** `timeout` */
    method Timeout()
      requires Valid()
      modifies this
      ensures Valid() && View() == old(View()).(waiting := true, waitFor := ADVERTISE)
    {
      waitingForResponse, responseToWaitFor := true, ADVERTISE;
    }

    /** Any one call on the client, or message for it. Whatever an honest gateway does, up to the 2^16-th message id
        the object's committed topics stay right. */
    method Perform(a: Action, ghost gateway: Proofs.Gateway)
      requires Valid() && Proofs.Inv(gateway, View())
      requires WellTyped(a) && Proofs.Honest(gateway, View(), a) && Step(View(), a).issued <= IDS
      modifies this, topicTable
      ensures Valid() && View() == Step(old(View()), a)
      ensures Proofs.Inv(gateway, View()) && Proofs.Committed(gateway, View())
    {
      hide MqttSnSpec.SendMessage, MqttSnSpec.RegackHandler, Proofs.Inv, Proofs.Honest, Bswap, WantsAnswer;
      hide Proofs.Committed, MqttSnSpec.DoPublish, MqttSnSpec.DoSubscribe, MqttSnSpec.DoUnsubscribe;
      hide MqttSnSpec.RegisterTopic, MqttSnSpec.Dispatch, MqttSnSpec.WaitForResponse;
      Proofs.StepKeeps(gateway, View(), a);
      Proofs.InvCommitted(gateway, Step(View(), a));
      match a {
        case ARegister(name, now) => var _ := RegisterTopic(name, now);
        case APublish(flags, topicId, data, now) => DoPublish(flags, topicId, data, now);
        case ASubscribe(flags, topic, now) => DoSubscribe(flags, topic, now);
        case AUnsubscribe(flags, topic, now) => DoUnsubscribe(flags, topic, now);
        case ARequest(what, waitFor, now) => DoRequest(what, waitFor, now);
        case ASend(what, now) => DoSend(what, now);
        case APoll(now, again) => var _ := WaitForResponse(now, again);
        case ATimeout => Timeout();
        case AReceive(m, now) => Dispatch(m, now);
      }
    }
  }
}
