/**
 * The running bot: the `pendingOrders` map, what it has sent, what `orders.json` holds and
 * whether the WhatsApp session is open, updated in place by the incoming-message handler
 * (index.js:115-229) and the intake endpoint (index.js:259-317).
 */
module Bot {
  import opened Wrappers
  import opened Jid
  import opened Command
  import opened Orders
  import opened Approval
  import opened Intake

  /** The `reduce` at index.js:160-163, one key at a time. */
  method NormalizeRecipients(rec: seq<Entry>) returns (acc: map<string, Answer>)
    ensures acc == Normalized(rec)
  {
    acc := map[];
    var i := 0;
    NormalizedEmpty(rec);
    while i < |rec|
      invariant 0 <= i <= |rec|
      invariant acc == Normalized(rec[..i])
    {
      NormalizedStep(rec, i);
      acc := acc[NormalizeJid(rec[i].jid) := rec[i].answer];
      i := i + 1;
    }
    assert rec[..|rec|] == rec;
  }

  /** The loop at index.js:188-191: every key takes the answer of its normalised form. */
  method WriteBackAnswers(rec: seq<Entry>, answers: map<string, Answer>) returns (out: seq<Entry>)
    requires forall i :: 0 <= i < |rec| ==> NormalizeJid(rec[i].jid) in answers
    ensures out == WriteBack(rec, answers)
  {
    ghost var w := WriteBack(rec, answers);
    out := rec;
    var i := 0;
    while i < |rec|
      invariant 0 <= i <= |rec| && |out| == |rec|
      invariant forall j :: 0 <= j < i ==> out[j] == w[j]
      invariant forall j :: i <= j < |rec| ==> out[j] == rec[j]
    {
      out := out[i := Entry(rec[i].jid, answers[NormalizeJid(rec[i].jid)])];
      i := i + 1;
    }
    assert |out| == |w|;
  }

  /** `status[jid] = null` for recipient `i`, its delivery address `jid`. */
  method AddKey(status: seq<Entry>, rs: seq<string>, i: nat) returns (next: seq<Entry>)
    requires i < |rs| && status == KeyEntries(rs[..i])
    ensures next == KeyEntries(rs[..i + 1])
  {
    assert rs[..i + 1][..i] == rs[..i];
    next := Put(status, DeliveryJid(rs[i]), None);
  }

  class OrderBot {
    /** `pendingOrders`. */
    var orders: Store
    /** Every message sent and callback posted, in order. */
    var outbox: seq<Effect>
    /** What `orders.json` holds. */
    ghost var persisted: Store
    var isConnected: bool

    ghost predicate Valid()
      reads this
    {
      StoreValid(orders) && StoreValid(persisted)
    }

    /** Start-up: `loadOrders` fills the map from the saved file; the session is not yet open. */
    constructor (saved: Store)
      ensures orders == saved && persisted == saved && outbox == [] && !isConnected
      ensures StoreValid(saved) ==> Valid()
    {
      orders := saved;
      persisted := saved;
      outbox := [];
      isConnected := false;
    }

    /** `connection` becoming `"open"` or `"close"`. */
    method SetConnected(open: bool)
      modifies this
      ensures isConnected == open
      ensures orders == old(orders) && outbox == old(outbox) && persisted == old(persisted)
    {
      isConnected := open;
    }

    /** `saveOrders`. */
    method SaveOrders()
      modifies this
      ensures persisted == orders
      ensures orders == old(orders) && outbox == old(outbox) && isConnected == old(isConnected)
    {
      persisted := orders;
    }

    /**
     * One message of a `messages.upsert` batch; `sendOk` says whether its reply send goes
     * through. The new map, the sends, the saved file and the throw are exactly those of
     * the reply engine, and validity is kept.
     */
    method HandleMessage(msg: Inbound, sendOk: bool) returns (threw: bool)
      modifies this
      ensures orders == Handle(old(orders), msg, sendOk).store
      ensures outbox == old(outbox) + Handle(old(orders), msg, sendOk).effects
      ensures persisted == if Handle(old(orders), msg, sendOk).saved then orders else old(persisted)
      ensures threw == Handle(old(orders), msg, sendOk).threw
      ensures isConnected == old(isConnected)
      ensures old(Valid()) ==> Valid()
    {
      if Valid() {
        HandlePreservesValid(orders, msg, sendOk);
      }
      if msg.message.None? || msg.fromMe {
        return false;
      }
      var parsed := ParseCommand(msg.message.value);
      if parsed.None? {
        return false;
      }
      var from := NormalizeJid(msg.remoteJid);
      assert Handle(orders, msg, sendOk) == Reply(orders, from, parsed.value, sendOk);
      threw := Respond(from, parsed.value, sendOk);
    }

    /** Index.js:152-229, for a parsed command from the normalised sender `from`. */
    method Respond(from: string, intent: Intent, sendOk: bool) returns (threw: bool)
      modifies this
      ensures orders == Reply(old(orders), from, intent, sendOk).store
      ensures outbox == old(outbox) + Reply(old(orders), from, intent, sendOk).effects
      ensures persisted == if Reply(old(orders), from, intent, sendOk).saved then orders else old(persisted)
      ensures threw == Reply(old(orders), from, intent, sendOk).threw
      ensures isConnected == old(isConnected)
    {
      ReplyBranches(orders, from, intent, sendOk);
      var id := intent.orderId;
      if id !in orders {
        threw := Notify(from, NotFoundText(id), sendOk);
        return;
      }
      var normalized := NormalizeRecipients(orders[id].recipients);
      if from !in normalized {
        return false;
      }
      if normalized[from].Some? {
        threw := Notify(from, AlreadyText(id), sendOk);
        return;
      }
      if !sendOk {
        return true;
      }
      Record(from, intent, normalized);
      return false;
    }

    /** The approval callback (index.js:194-207): posted when the order has a callback URL; a failed post is only logged. */
    method PostCallback(url: Option<string>, payload: CallbackPayload) returns (callback: seq<Effect>)
      modifies this
      ensures callback == if Truthy(url) then [Callback(url.value, payload)] else []
      ensures outbox == old(outbox) + callback
      ensures orders == old(orders) && persisted == old(persisted) && isConnected == old(isConnected)
    {
      callback := [];
      if Truthy(url) {
        callback := [Callback(url.value, payload)];
        outbox := outbox + callback;
      }
    }

    /** A notice to the sender; a send that does not go through throws. */
    method Notify(to: string, text: string, sendOk: bool) returns (threw: bool)
      modifies this
      ensures outbox == old(outbox) + if sendOk then [SendText(to, text)] else []
      ensures threw == !sendOk
      ensures orders == old(orders) && persisted == old(persisted) && isConnected == old(isConnected)
    {
      if !sendOk {
        return true;
      }
      outbox := outbox + [SendText(to, text)];
      return false;
    }

    /** Index.js:177-229: record the answer, confirm, write back, call back, settle and save. */
    method Record(from: string, intent: Intent, normalized: map<string, Answer>)
      requires intent.orderId in orders && normalized == Normalized(orders[intent.orderId].recipients)
      requires from in normalized && normalized[from] == None
      modifies this
      ensures orders == Reply(old(orders), from, intent, true).store
      ensures outbox == old(outbox) + Reply(old(orders), from, intent, true).effects
      ensures persisted == orders
      ensures isConnected == old(isConnected)
    {
      var id := intent.orderId;
      var order := orders[id];
      var vote := VoteOf(intent.action);
      KeysNormalized(order.recipients);
      var answers := normalized[from := Some(vote)];
      var confirm := SendText(from, ConfirmText(intent));
      outbox := outbox + [confirm];
      var rec := WriteBackAnswers(order.recipients, answers);
      assert rec == RecordAnswer(order.recipients, from, vote);
      var callback := PostCallback(order.callbackUrl, CallbackPayload(id, CleanNumber(from), CallbackStatus(rec, from, vote), intent.reason));
      AppendAssoc(old(outbox), [confirm], callback);
      RecordedStep(old(orders), from, intent, rec, callback);
      if Settlement(rec) == Pending {
        orders := orders[id := order.(recipients := rec)];
      } else {
        orders := orders - {id};
      }
      SaveOrders();
    }

    /**
     * A whole `messages.upsert` batch, `sendOk[k]` for message `k`: the messages are handled
     * in order and a throw abandons the rest, exactly as the batch model says.
     */
    method HandleUpsert(msgs: seq<Inbound>, sendOk: seq<bool>) returns (threw: bool)
      requires |sendOk| == |msgs|
      modifies this
      ensures orders == Batch(old(orders), old(persisted), msgs, sendOk).store
      ensures persisted == Batch(old(orders), old(persisted), msgs, sendOk).persisted
      ensures outbox == old(outbox) + Batch(old(orders), old(persisted), msgs, sendOk).effects
      ensures threw == Batch(old(orders), old(persisted), msgs, sendOk).threw
      ensures isConnected == old(isConnected)
      ensures old(Valid()) ==> Valid()
    {
      ghost var whole := Batch(orders, persisted, msgs, sendOk);
      if Valid() {
        BatchPreservesValid(orders, persisted, msgs, sendOk);
      }
      ghost var done: seq<Effect> := [];
      assert msgs[0..] == msgs && sendOk[0..] == sendOk;
      var i := 0;
      while i < |msgs|
        invariant 0 <= i <= |msgs|
        invariant outbox == old(outbox) + done
        invariant isConnected == old(isConnected)
        invariant whole == After(done, BatchWith(Handle, orders, persisted, msgs[i..], sendOk[i..]))
      {
        ghost var step := Handle(orders, msgs[i], sendOk[i]);
        BatchAdvance(Handle, orders, persisted, msgs, sendOk, i, done, whole);
        ThrowSavesNothing(orders, msgs[i], sendOk[i]);
        threw := HandleMessage(msgs[i], sendOk[i]);
        AppendAssoc(old(outbox), done, step.effects);
        done := done + step.effects;
        if threw {
          return;
        }
        i := i + 1;
      }
      BatchEmpty(Handle, orders, persisted, msgs[i..], sendOk[i..]);
      return false;
    }

    /**
     * `POST /send-order`; send attempt number `failAt` (counting from 0 over the whole
     * request) throws, if any. Every branch matches the intake model: the response, the
     * sends made, the map and the saved file.
     */
    method SendOrder(req: Request, failAt: Option<nat>) returns (result: Result<string, Failure>)
      modifies this
      ensures result == Intake.SendOrder(old(orders), old(isConnected), req, failAt).result
      ensures orders == Intake.SendOrder(old(orders), old(isConnected), req, failAt).store
      ensures outbox == old(outbox) + Intake.SendOrder(old(orders), old(isConnected), req, failAt).effects
      ensures persisted == if Intake.SendOrder(old(orders), old(isConnected), req, failAt).saved then orders else old(persisted)
      ensures isConnected == old(isConnected)
      ensures old(Valid()) ==> Valid()
    {
      if Valid() {
        SendOrderPreservesValid(orders, isConnected, req, failAt);
      }
      if !ValidRequest(req) {
        return Err(InvalidRequest);
      }
      if !isConnected {
        return Err(NotConnected);
      }
      var rs := req.recipients.value;
      var images := Images(req);
      RecipientsRunAgrees(rs, req.message.value, images, failAt, 0);
      var status, failure := Broadcast(rs, req.message.value, images, failAt);
      if failure.Some? {
        return Err(failure.value);
      }
      orders := orders[req.orderId.value := Order(status, req.callbackUrl, Pending)];
      SaveOrders();
      return Ok(req.orderId.value);
    }

    /**
     * The loop over the recipients (index.js:278-304): each delivery address gets a
     * `null` answer, then the message and the attachments; the first failure ends it.
     */
    method Broadcast(rs: seq<string>, message: string, images: seq<Prepared>, failAt: Option<nat>)
      returns (status: seq<Entry>, failure: Option<Failure>)
      modifies this
      ensures
        var run := RecipientsRun(rs, message, images, failAt, 0);
        failure == run.failure && outbox == old(outbox) + run.sent
      ensures failure.None? ==> status == KeyEntries(rs)
      ensures orders == old(orders) && persisted == old(persisted) && isConnected == old(isConnected)
    {
      ghost var sent: seq<Effect> := [];
      status := [];
      var attempt: nat := 0;
      var i := 0;
      while i < |rs|
        invariant 0 <= i <= |rs|
        invariant status == KeyEntries(rs[..i])
        invariant RecipientsRun(rs[..i], message, images, failAt, 0) == Run(sent, None) && attempt == |sent|
        invariant outbox == old(outbox) + sent
        invariant orders == old(orders) && persisted == old(persisted) && isConnected == old(isConnected)
      {
        status := AddKey(status, rs, i);
        failure, attempt := Visit(rs, i, message, images, failAt, attempt, sent);
        ghost var run := DeliverRun(DeliveryJid(rs[i]), message, images, failAt, |sent|);
        AppendAssoc(old(outbox), sent, run.sent);
        sent := sent + run.sent;
        if failure.Some? {
          return;
        }
        i := i + 1;
      }
      assert rs[..|rs|] == rs;
      return status, None;
    }

    /** One turn of the recipient loop: recipient `i` after the first `i` went through with the sends `sent`. */
    method Visit(rs: seq<string>, i: nat, message: string, images: seq<Prepared>, failAt: Option<nat>, attempt: nat, ghost sent: seq<Effect>)
      returns (failure: Option<Failure>, next: nat)
      requires i < |rs| && RecipientsRun(rs[..i], message, images, failAt, 0) == Run(sent, None) && attempt == |sent|
      modifies this
      ensures
        var run := DeliverRun(DeliveryJid(rs[i]), message, images, failAt, attempt);
        && failure == run.failure && next == attempt + |run.sent|
        && outbox == old(outbox) + run.sent
        && (failure.None? ==> RecipientsRun(rs[..i + 1], message, images, failAt, 0) == Run(sent + run.sent, None))
        && (failure.Some? ==> RecipientsRun(rs, message, images, failAt, 0) == Run(sent + run.sent, failure))
      ensures orders == old(orders) && persisted == old(persisted) && isConnected == old(isConnected)
    {
      var jid := DeliveryJid(rs[i]);
      ghost var run := DeliverRun(jid, message, images, failAt, attempt);
      var count;
      failure, count := Deliver(jid, message, images, failAt, attempt);
      RecipientsNext(rs, i, message, images, failAt, sent);
      next := attempt + count;
    }

    /**
     * The sends for one recipient (index.js:281-303), attempt numbers counted from
     * `attempt`: the message, then each attachment that is present.
     */
    method Deliver(jid: string, message: string, images: seq<Prepared>, failAt: Option<nat>, attempt: nat)
      returns (failure: Option<Failure>, count: nat)
      modifies this
      ensures
        var run := DeliverRun(jid, message, images, failAt, attempt);
        failure == run.failure && count == |run.sent| && outbox == old(outbox) + run.sent
      ensures orders == old(orders) && persisted == old(persisted) && isConnected == old(isConnected)
    {
      var ok := Transmit(SendText(jid, message), failAt, attempt);
      if !ok {
        return Some(SendFailed), 0;
      }
      ghost var rest := FieldsRun(jid, images, failAt, attempt + 1);
      var n;
      failure, n := SendAttachments(jid, images, failAt, attempt + 1);
      AppendAssoc(old(outbox), [SendText(jid, message)], rest.sent);
      count := 1 + n;
    }

    /** The inner loop over the attachments (index.js:284-303), attempt numbers counted from `k`. */
    method SendAttachments(jid: string, images: seq<Prepared>, failAt: Option<nat>, k: nat)
      returns (failure: Option<Failure>, count: nat)
      modifies this
      ensures
        var run := FieldsRun(jid, images, failAt, k);
        failure == run.failure && count == |run.sent| && outbox == old(outbox) + run.sent
      ensures orders == old(orders) && persisted == old(persisted) && isConnected == old(isConnected)
    {
      ghost var sent: seq<Effect> := [];
      count := 0;
      var j := 0;
      while j < |images|
        invariant 0 <= j <= |images|
        invariant FieldsRun(jid, images[..j], failAt, k) == Run(sent, None) && count == |sent|
        invariant outbox == old(outbox) + sent
        invariant orders == old(orders) && persisted == old(persisted) && isConnected == old(isConnected)
      {
        ghost var run := FieldRun(jid, images[j], failAt, k + count);
        var imageFailure, n := SendAttachment(jid, images[j], failAt, k + count);
        FieldsNext(jid, images, j, failAt, k, sent);
        AppendAssoc(old(outbox), sent, run.sent);
        sent := sent + run.sent;
        count := count + n;
        if imageFailure.Some? {
          return imageFailure, count;
        }
        j := j + 1;
      }
      assert images[..|images|] == images;
      return None, count;
    }

    /**
     * One attachment (index.js:285-302): skipped when empty, otherwise classified and
     * sent as send attempt `k`.
     */
    method SendAttachment(jid: string, image: Prepared, failAt: Option<nat>, k: nat)
      returns (failure: Option<Failure>, n: nat)
      modifies this
      ensures
        var run := FieldRun(jid, image, failAt, k);
        failure == run.failure && n == |run.sent| && outbox == old(outbox) + run.sent
      ensures orders == old(orders) && persisted == old(persisted) && isConnected == old(isConnected)
    {
      match image.image {
        case None =>
          return None, 0;
        case Some(Err(_)) =>
          return Some(BadImage), 0;
        case Some(Ok(payload)) =>
          var ok := Transmit(SendImage(jid, payload, image.caption), failAt, k);
          if !ok {
            return Some(SendFailed), 0;
          }
      }
      return None, 1;
    }

    /** `sock.sendMessage` as send attempt `k`: it throws when `k` is the failing attempt. */
    method Transmit(e: Effect, failAt: Option<nat>, k: nat) returns (ok: bool)
      modifies this
      ensures ok <==> failAt != Some(k)
      ensures outbox == old(outbox) + if ok then [e] else []
      ensures orders == old(orders) && persisted == old(persisted) && isConnected == old(isConnected)
    {
      if failAt == Some(k) {
        return false;
      }
      outbox := outbox + [e];
      return true;
    }
  }

  lemma KeysNormalized(rec: seq<Entry>)
    ensures forall i :: 0 <= i < |rec| ==> NormalizeJid(rec[i].jid) in Normalized(rec)
  {
    NormalizedKeys(rec);
  }

  /** The branches of the engine that record nothing, spelled out. */
  lemma ReplyBranches(store: Store, from: string, intent: Intent, sendOk: bool)
    ensures intent.orderId !in store ==>
      Reply(store, from, intent, sendOk) == Step(store, if sendOk then [SendText(from, NotFoundText(intent.orderId))] else [], false, !sendOk, OrderNotFound)
    ensures intent.orderId in store && from !in Normalized(store[intent.orderId].recipients) ==>
      Reply(store, from, intent, sendOk) == Step(store, [], false, false, NotARecipient)
    ensures intent.orderId in store && from in Normalized(store[intent.orderId].recipients) && Normalized(store[intent.orderId].recipients)[from].Some? ==>
      Reply(store, from, intent, sendOk) == Step(store, if sendOk then [SendText(from, AlreadyText(intent.orderId))] else [], false, !sendOk, AlreadyResponded)
    ensures intent.orderId in store && from in Normalized(store[intent.orderId].recipients) && Normalized(store[intent.orderId].recipients)[from].None? && !sendOk ==>
      Reply(store, from, intent, sendOk) == Step(store, [], false, true, Aborted)
  {
  }

  /** The accepted-reply branch of the engine, spelled out field by field. */
  lemma RecordedStep(store: Store, from: string, intent: Intent, rec: seq<Entry>, callback: seq<Effect>)
    requires intent.orderId in store && from in Normalized(store[intent.orderId].recipients)
    requires Normalized(store[intent.orderId].recipients)[from] == None
    requires rec == RecordAnswer(store[intent.orderId].recipients, from, VoteOf(intent.action))
    requires callback == if Truthy(store[intent.orderId].callbackUrl) then
      [Callback(store[intent.orderId].callbackUrl.value,
        CallbackPayload(intent.orderId, CleanNumber(from), CallbackStatus(rec, from, VoteOf(intent.action)), intent.reason))]
      else []
    ensures Reply(store, from, intent, true).store ==
      if Settlement(rec) == Pending then store[intent.orderId := store[intent.orderId].(recipients := rec)] else store - {intent.orderId}
    ensures Reply(store, from, intent, true).effects == [SendText(from, ConfirmText(intent))] + callback
  {
  }

  /** A batch state with `done` sent before it. */
  function After(done: seq<Effect>, b: BatchState): BatchState {
    b.(effects := done + b.effects)
  }

  lemma AppendAssoc<T>(a: seq<T>, b: seq<T>, c: seq<T>)
    ensures (a + b) + c == a + (b + c)
  {
  }

  lemma BatchEmpty(h: Handler, store: Store, persisted: Store, msgs: seq<Inbound>, sendOk: seq<bool>)
    requires |sendOk| == |msgs| && msgs == []
    ensures BatchWith(h, store, persisted, msgs, sendOk) == BatchState(store, persisted, [], false)
  {
  }

  /** Handling message `i` of a batch moves the rest of the batch one message on. */
  lemma BatchAdvance(h: Handler, store: Store, persisted: Store, msgs: seq<Inbound>, sendOk: seq<bool>, i: nat, done: seq<Effect>, whole: BatchState)
    requires |sendOk| == |msgs| && i < |msgs|
    requires whole == After(done, BatchWith(h, store, persisted, msgs[i..], sendOk[i..]))
    ensures
      var step := h(store, msgs[i], sendOk[i]);
      var p := if step.saved then step.store else persisted;
      && (step.threw ==> whole == BatchState(step.store, persisted, done + step.effects, true))
      && (!step.threw ==> whole == After(done + step.effects, BatchWith(h, step.store, p, msgs[i + 1..], sendOk[i + 1..])))
  {
    assert msgs[i..][0] == msgs[i] && sendOk[i..][0] == sendOk[i];
    assert msgs[i..][1..] == msgs[i + 1..] && sendOk[i..][1..] == sendOk[i + 1..];
    var step := h(store, msgs[i], sendOk[i]);
    var p := if step.saved then step.store else persisted;
    var rest := BatchWith(h, step.store, p, msgs[i + 1..], sendOk[i + 1..]);
    assert done + (step.effects + rest.effects) == (done + step.effects) + rest.effects;
  }
}
