/**
 * The reply engine: what one incoming chat message does to the order store and which
 * messages and callbacks it produces (index.js:116-229). A send that throws aborts
 * the handler for that message and for the rest of its batch.
 */
module Approval {
  import opened Wrappers
  import opened Ascii
  import opened Jid
  import opened Command
  import opened Orders

  /** An incoming chat message: raw sender address, own-message flag, and content (absent for protocol messages). */
  datatype Inbound = Inbound(remoteJid: string, fromMe: bool, message: Option<Content>)

  datatype Outcome =
    | Skipped           // no content, sent by the bot itself, or not a command
    | OrderNotFound
    | NotARecipient
    | AlreadyResponded
    | Aborted           // the confirmation could not be sent: nothing recorded
    | Recorded(vote: Vote, status: Status)

  /**
   * What handling one message did: the new store, the effects in the order they
   * happened, whether the store was saved, and whether a send threw.
   */
  datatype Step = Step(store: Store, effects: seq<Effect>, saved: bool, threw: bool, outcome: Outcome)

  /** `"yes"` for APPROVE, `"no"` for REJECT. */
  function VoteOf(a: Action): Vote {
    if a == Approve then Yes else No
  }

  function NotFoundText(id: string): string {
    "\U{274C} Order " + id + " tidak ditemukan."
  }

  function AlreadyText(id: string): string {
    "\U{26A0}\U{FE0F} Anda sudah merespon order #" + id + "."
  }

  function ConfirmText(intent: Intent): string {
    (if intent.action == Approve then "\U{2705} Anda menyetujui order #" else "\U{274C} Anda menolak order #")
    + intent.orderId
    + (if Truthy(intent.reason) then "\n\U{1F4DD} Alasan: " + intent.reason.value else "")
  }

  /** Index.js:177 and 188-191: the sender's normalised entry takes the vote and is written back to every key. */
  function RecordAnswer(rec: seq<Entry>, from: string, vote: Vote): seq<Entry>
    requires from in Normalized(rec)
  {
    NormalizedKeys(rec);
    WriteBack(rec, Normalized(rec)[from := Some(vote)])
  }

  /** The recorded table keeps its keys and their order, and gives the vote to every key that normalises to the sender. */
  lemma RecordAnswerSpec(rec: seq<Entry>, from: string, vote: Vote)
    requires from in Normalized(rec)
    ensures Jids(RecordAnswer(rec, from, vote)) == Jids(rec)
    ensures |RecordAnswer(rec, from, vote)| == |rec|
    ensures forall i :: 0 <= i < |rec| && NormalizeJid(rec[i].jid) == from ==> RecordAnswer(rec, from, vote)[i].answer == Some(vote)
  {
    var r := RecordAnswer(rec, from, vote);
    assert forall i :: 0 <= i < |rec| ==> r[i].jid == rec[i].jid;
  }

  /** On a coherent table, recording leaves the answer of every key that does not normalise to the sender as it was. */
  lemma RecordKeepsOthers(rec: seq<Entry>, from: string, vote: Vote)
    requires from in Normalized(rec) && Coherent(rec)
    ensures forall i :: 0 <= i < |rec| && NormalizeJid(rec[i].jid) != from ==>
      RecordAnswer(rec, from, vote)[i].answer == rec[i].answer
  {
    NormalizedCoherent(rec);
  }

  /** After recording, the table is coherent and the sender's normalised entry holds the vote. */
  lemma RecordAnswerSettled(rec: seq<Entry>, from: string, vote: Vote)
    requires from in Normalized(rec)
    ensures Coherent(RecordAnswer(rec, from, vote))
    ensures from in Normalized(RecordAnswer(rec, from, vote))
    ensures Normalized(RecordAnswer(rec, from, vote))[from] == Some(vote)
  {
    NormalizedKeys(rec);
    var answers := Normalized(rec)[from := Some(vote)];
    WriteBackSpec(rec, answers);
    var i :| 0 <= i < |rec| && NormalizeJid(rec[i].jid) == from && Normalized(rec)[from] == rec[i].answer;
  }

  /** With an injective normaliser on the keys, recording touches only the sender's key. */
  lemma RecordInjective(rec: seq<Entry>, from: string, vote: Vote)
    requires from in Normalized(rec) && NormInjective(rec)
    ensures forall i :: 0 <= i < |rec| && NormalizeJid(rec[i].jid) != from ==>
      RecordAnswer(rec, from, vote)[i].answer == rec[i].answer
  {
    InjectiveIsCoherent(rec);
    RecordKeepsOthers(rec, from, vote);
  }

  /** Index.js:199: `order.recipients[from] ?? normalizedRecipients[from]`. */
  function CallbackStatus(rec: seq<Entry>, from: string, vote: Vote): Vote {
    match Get(rec, from)
    case Some(Some(w)) => w
    case _ => vote
  }

  /** Index.js:152-229 for one parsed command from the normalised sender `from`. */
  function Reply(store: Store, from: string, intent: Intent, sendOk: bool): Step {
    var id := intent.orderId;
    if id !in store then
      Step(store, if sendOk then [SendText(from, NotFoundText(id))] else [], false, !sendOk, OrderNotFound)
    else
      var order := store[id];
      var answers := Normalized(order.recipients);
      if from !in answers then
        Step(store, [], false, false, NotARecipient)
      else if answers[from].Some? then
        Step(store, if sendOk then [SendText(from, AlreadyText(id))] else [], false, !sendOk, AlreadyResponded)
      else if !sendOk then
        Step(store, [], false, true, Aborted)
      else
        var vote := VoteOf(intent.action);
        var rec := RecordAnswer(order.recipients, from, vote);
        var callback :=
          if Truthy(order.callbackUrl) then
            [Callback(order.callbackUrl.value, CallbackPayload(id, CleanNumber(from), CallbackStatus(rec, from, vote), intent.reason))]
          else [];
        var status := Settlement(rec);
        var store' := if status == Pending then store[id := order.(recipients := rec)] else store - {id};
        Step(store', [SendText(from, ConfirmText(intent))] + callback, true, false, Recorded(vote, status))
  }

  /** Index.js:117-149: filter, normalise the sender, extract and parse the text, then reply. */
  function Handle(store: Store, msg: Inbound, sendOk: bool): Step {
    if msg.message.None? || msg.fromMe then Step(store, [], false, false, Skipped)
    else
      match ParseCommand(msg.message.value)
      case None => Step(store, [], false, false, Skipped)
      case Some(intent) => Reply(store, NormalizeJid(msg.remoteJid), intent, sendOk)
  }

  /** A message without content, from the bot itself, or whose text is not a command changes nothing and sends nothing. */
  lemma SkippedIff(store: Store, msg: Inbound, sendOk: bool)
    ensures Handle(store, msg, sendOk).outcome == Skipped <==>
      msg.message.None? || msg.fromMe || ParseCommand(msg.message.value).None?
    ensures Handle(store, msg, sendOk).outcome == Skipped ==> Handle(store, msg, sendOk) == Step(store, [], false, false, Skipped)
  {
    if !(msg.message.None? || msg.fromMe) && ParseCommand(msg.message.value).Some? {
      var intent := ParseCommand(msg.message.value).value;
      assert Handle(store, msg, sendOk) == Reply(store, NormalizeJid(msg.remoteJid), intent, sendOk);
      ReplyNeverSkips(store, NormalizeJid(msg.remoteJid), intent, sendOk);
    }
  }

  lemma ReplyNeverSkips(store: Store, from: string, intent: Intent, sendOk: bool)
    ensures Reply(store, from, intent, sendOk).outcome != Skipped
  {
  }

  /** Every step that does not record an answer leaves the store as it was and does not save it. */
  lemma OnlyRecordingChanges(store: Store, from: string, intent: Intent, sendOk: bool)
    ensures !Reply(store, from, intent, sendOk).outcome.Recorded? ==>
      Reply(store, from, intent, sendOk).store == store && !Reply(store, from, intent, sendOk).saved
    ensures Reply(store, from, intent, sendOk).threw <==> !sendOk && !Reply(store, from, intent, sendOk).outcome.NotARecipient?
  {
    var st := Reply(store, from, intent, sendOk);
    var id := intent.orderId;
    if id !in store {
      assert st.store == store && !st.saved && st.outcome == OrderNotFound && st.threw == !sendOk;
    } else {
      var answers := Normalized(store[id].recipients);
      if from !in answers {
        assert st == Step(store, [], false, false, NotARecipient);
      } else if answers[from].Some? {
        assert st.store == store && !st.saved && st.outcome == AlreadyResponded && st.threw == !sendOk;
      } else if !sendOk {
        assert st == Step(store, [], false, true, Aborted);
      } else {
        assert st.outcome.Recorded? && !st.threw;
      }
    }
  }

  /** An unknown order id sends exactly one not-found message to the sender, changes nothing and saves nothing. */
  lemma UnknownOrder(store: Store, from: string, intent: Intent)
    requires intent.orderId !in store
    ensures Reply(store, from, intent, true) == Step(store, [SendText(from, NotFoundText(intent.orderId))], false, false, OrderNotFound)
  {
  }

  /** A sender that no key normalises to causes nothing at all. */
  lemma NotARecipientSilent(store: Store, from: string, intent: Intent, sendOk: bool)
    requires intent.orderId in store
    requires forall i :: 0 <= i < |store[intent.orderId].recipients| ==> NormalizeJid(store[intent.orderId].recipients[i].jid) != from
    ensures Reply(store, from, intent, sendOk) == Step(store, [], false, false, NotARecipient)
  {
    IsRecipientIff(store[intent.orderId].recipients, from);
  }

  /** A sender whose entry is already answered only gets the already-responded notice. */
  lemma AnsweredOnlyNotified(store: Store, from: string, intent: Intent, i: nat)
    requires intent.orderId in store && Coherent(store[intent.orderId].recipients)
    requires i < |store[intent.orderId].recipients|
    requires NormalizeJid(store[intent.orderId].recipients[i].jid) == from
    requires store[intent.orderId].recipients[i].answer.Some?
    ensures Reply(store, from, intent, true) == Step(store, [SendText(from, AlreadyText(intent.orderId))], false, false, AlreadyResponded)
  {
    NormalizedCoherent(store[intent.orderId].recipients);
  }

  /**
   * An accepted reply confirms to the sender first, then posts the callback exactly
   * when the order has a truthy callback URL; it always saves the store, touches no
   * other order, and removes the order exactly when the recorded table is settled.
   */
  lemma RecordedSpec(store: Store, from: string, intent: Intent, sendOk: bool)
    requires Reply(store, from, intent, sendOk).outcome.Recorded?
    ensures intent.orderId in store && sendOk
    ensures from in Normalized(store[intent.orderId].recipients)
    ensures Normalized(store[intent.orderId].recipients)[from] == None
    ensures
      var order := store[intent.orderId];
      var rec := RecordAnswer(order.recipients, from, VoteOf(intent.action));
      var step := Reply(store, from, intent, sendOk);
      && step.outcome == Recorded(VoteOf(intent.action), Settlement(rec))
      && step.saved && !step.threw
      && |step.effects| == (if Truthy(order.callbackUrl) then 2 else 1)
      && step.effects[0] == SendText(from, ConfirmText(intent))
      && (Truthy(order.callbackUrl) ==>
            step.effects[1] == Callback(order.callbackUrl.value,
              CallbackPayload(intent.orderId, CleanNumber(from), CallbackStatus(rec, from, VoteOf(intent.action)), intent.reason)))
      && (intent.orderId in step.store <==> Settlement(rec) == Pending)
      && (intent.orderId in step.store ==> step.store[intent.orderId] == order.(recipients := rec))
    ensures forall id :: id != intent.orderId ==>
      (id in Reply(store, from, intent, sendOk).store <==> id in store) &&
      (id in store ==> Reply(store, from, intent, sendOk).store[id] == store[id])
  {
  }

  /** Replies to one order never touch another. */
  lemma ReplyFrame(store: Store, from: string, intent: Intent, sendOk: bool, id: string)
    requires id != intent.orderId
    ensures id in Reply(store, from, intent, sendOk).store <==> id in store
    ensures id in store ==> Reply(store, from, intent, sendOk).store[id] == store[id]
  {
    if Reply(store, from, intent, sendOk).outcome.Recorded? {
      RecordedSpec(store, from, intent, sendOk);
    }
  }

  /**
   * A second reply from the same sender to the same order never overwrites the first:
   * it is answered with the already-responded notice, or with not-found once the
   * first reply settled the order.
   */
  lemma SecondReplyKeepsFirst(store: Store, from: string, first: Intent, second: Intent, sendOk: bool)
    requires Reply(store, from, first, true).outcome.Recorded?
    requires second.orderId == first.orderId
    ensures
      var after := Reply(store, from, first, true).store;
      var again := Reply(after, from, second, sendOk);
      && again.store == after && !again.saved
      && again.outcome == (if first.orderId in after then AlreadyResponded else OrderNotFound)
  {
    RecordedSpec(store, from, first, true);
    var after := Reply(store, from, first, true).store;
    if first.orderId in after {
      var rec := RecordAnswer(store[first.orderId].recipients, from, VoteOf(first.action));
      RecordAnswerSettled(store[first.orderId].recipients, from, VoteOf(first.action));
      assert after[first.orderId].recipients == rec;
    }
  }

  /** Once an order is settled, every later reply to it takes the not-found path. */
  lemma SettledThenNotFound(store: Store, from: string, intent: Intent, other: string, later: Intent, sendOk: bool)
    requires Reply(store, from, intent, true).outcome.Recorded?
    requires Reply(store, from, intent, true).outcome.status != Pending
    requires later.orderId == intent.orderId
    ensures Reply(Reply(store, from, intent, true).store, other, later, sendOk).outcome == OrderNotFound
  {
    RecordedSpec(store, from, intent, true);
  }

  /** The callback reports the vote just recorded when the sender is not itself a key, or is one in normal form. */
  lemma CallbackStatusIsVote(rec: seq<Entry>, from: string, vote: Vote)
    requires from in Normalized(rec) && DistinctJids(rec)
    requires from !in Jids(rec) || NormalizeJid(from) == from
    ensures CallbackStatus(RecordAnswer(rec, from, vote), from, vote) == vote
  {
    var r := RecordAnswer(rec, from, vote);
    RecordAnswerSpec(rec, from, vote);
    if from in Jids(rec) {
      var i :| 0 <= i < |rec| && Jids(rec)[i] == from;
      assert r[i].jid == from;
      SameJidsDistinct(rec, r);
      GetAt(r, i);
    }
  }

  /**
   * When the sender's own address is also a key, one that normalises elsewhere, the
   * callback reports the answer stored under that other normal form (or the vote, when
   * that one is unanswered), not the vote just recorded. With `CallbackStatusIsVote`
   * this is the whole rule for the callback status.
   */
  lemma CallbackReportsOtherKey(rec: seq<Entry>, from: string, vote: Vote)
    requires DistinctJids(rec) && from in Jids(rec) && from in Normalized(rec)
    requires NormalizeJid(from) != from
    ensures NormalizeJid(from) in Normalized(rec)
    ensures CallbackStatus(RecordAnswer(rec, from, vote), from, vote) ==
      match Normalized(rec)[NormalizeJid(from)] case Some(w) => w case None => vote
  {
    var i :| 0 <= i < |rec| && Jids(rec)[i] == from;
    NormalizedKeys(rec);
    var r := RecordAnswer(rec, from, vote);
    RecordAnswerSpec(rec, from, vote);
    assert r[i] == Entry(from, Normalized(rec)[NormalizeJid(from)]);
    SameJidsDistinct(rec, r);
    GetAt(r, i);
  }

  /** The two-entry table behind the concrete example below. */
  lemma CallbackPair(rec: seq<Entry>, k: string, from: string, other: Vote, vote: Vote)
    requires rec == [Entry(k, None), Entry(from, Some(other))]
    requires NormalizeJid(k) == from && NormalizeJid(from) != from && k != from
    ensures from in Normalized(rec) && Normalized(rec)[from] == None
    ensures CallbackStatus(RecordAnswer(rec, from, vote), from, vote) == other
  {
    PairNormalized(rec, k, from);
    assert Normalized(rec)[from] == None;
    PairRecorded(rec, k, from, vote);
    var rec' := RecordAnswer(rec, from, vote);
    assert rec' == [Entry(k, Some(vote)), Entry(from, Some(other))];
    PairGet(rec', k, from);
    assert Get(rec', from) == Some(Some(other));
  }

  lemma PairGet(r: seq<Entry>, k: string, from: string)
    requires |r| == 2 && r[0].jid == k && r[1].jid == from && k != from
    ensures Get(r, from) == Some(r[1].answer)
  {
    assert Get(r, from) == Get(r[1..], from);
  }

  lemma PairNormalized(rec: seq<Entry>, k: string, from: string)
    requires |rec| == 2 && rec[0].jid == k && rec[1].jid == from && NormalizeJid(k) == from
    ensures Normalized(rec) == map[from := rec[0].answer][NormalizeJid(from) := rec[1].answer]
  {
    var t := Renamed(rec);
    CollectPair(t[0], t[1]);
    assert t == [t[0], t[1]];
  }

  lemma PairRecorded(rec: seq<Entry>, k: string, from: string, vote: Vote)
    requires |rec| == 2 && rec[0].jid == k && rec[1].jid == from && NormalizeJid(k) == from && NormalizeJid(from) != from
    requires Normalized(rec) == map[from := rec[0].answer][NormalizeJid(from) := rec[1].answer]
    ensures RecordAnswer(rec, from, vote) == [Entry(k, Some(vote)), Entry(from, rec[1].answer)]
  {
  }

  /** Such addresses exist: an APPROVE from `++1` reports the "no" stored under the key `+1`. */
  lemma CallbackReportsOtherKeyExample()
    ensures NormalizeJid("++1") == "+1"
    ensures CallbackStatus(RecordAnswer([Entry("++1", None), Entry("+1", Some(No))], "+1", Yes), "+1", Yes) == No
  {
    NotIdempotentOnDoublePlus();
    CallbackPair([Entry("++1", None), Entry("+1", Some(No))], "++1", "+1", No, Yes);
  }

  lemma CollectPair(a: Entry, b: Entry)
    ensures Collect([a, b]) == map[a.jid := a.answer][b.jid := b.answer]
  {
    assert [a, b][..1] == [a];
    assert [a][..0] == [];
    assert Collect([a]) == map[a.jid := a.answer];
  }

  /** An accepted reply keeps every order in the store pending, with distinct, coherent, unsettled keys. */
  lemma ReplyPreservesValid(store: Store, from: string, intent: Intent, sendOk: bool)
    requires StoreValid(store)
    ensures StoreValid(Reply(store, from, intent, sendOk).store)
  {
    var step := Reply(store, from, intent, sendOk);
    if step.outcome.Recorded? {
      RecordedSpec(store, from, intent, sendOk);
      var id := intent.orderId;
      var rec := store[id].recipients;
      var rec' := RecordAnswer(rec, from, VoteOf(intent.action));
      RecordAnswerSpec(rec, from, VoteOf(intent.action));
      RecordAnswerSettled(rec, from, VoteOf(intent.action));
      if id in step.store {
        SameJidsDistinct(rec, rec');
        assert OrderValid(step.store[id]);
      }
      forall id' | id' in step.store
        ensures OrderValid(step.store[id'])
      {
        if id' != id {
          assert step.store[id'] == store[id'];
        }
      }
    }
  }

  lemma HandlePreservesValid(store: Store, msg: Inbound, sendOk: bool)
    requires StoreValid(store)
    ensures StoreValid(Handle(store, msg, sendOk).store)
  {
    if !(msg.message.None? || msg.fromMe) && ParseCommand(msg.message.value).Some? {
      ReplyPreservesValid(store, NormalizeJid(msg.remoteJid), ParseCommand(msg.message.value).value, sendOk);
    }
  }

  /** An order whose id has a lower-case letter is never changed by any message: parsed ids are upper case. */
  lemma LowerCaseIdUnreachable(store: Store, msg: Inbound, sendOk: bool, id: string)
    requires !NoLower(id)
    ensures id in Handle(store, msg, sendOk).store <==> id in store
    ensures id in store ==> Handle(store, msg, sendOk).store[id] == store[id]
  {
    if !(msg.message.None? || msg.fromMe) && ParseCommand(msg.message.value).Some? {
      IntentIsUpper(msg.message.value);
      ReplyFrame(store, NormalizeJid(msg.remoteJid), ParseCommand(msg.message.value).value, sendOk, id);
    }
  }

  /** The handler's state across one `messages.upsert` batch. */
  datatype BatchState = BatchState(store: Store, persisted: Store, effects: seq<Effect>, threw: bool)

  /** A message whose send throws leaves the store as it was and unsaved. */
  lemma ThrowSavesNothing(store: Store, msg: Inbound, sendOk: bool)
    ensures Handle(store, msg, sendOk).threw ==> Handle(store, msg, sendOk).store == store && !Handle(store, msg, sendOk).saved
  {
    if !(msg.message.None? || msg.fromMe) && ParseCommand(msg.message.value).Some? {
      var intent := ParseCommand(msg.message.value).value;
      assert Handle(store, msg, sendOk) == Reply(store, NormalizeJid(msg.remoteJid), intent, sendOk);
      OnlyRecordingChanges(store, NormalizeJid(msg.remoteJid), intent, sendOk);
    }
  }

  /** A message handler as a value: the store, the message and whether its send goes through, to the step taken. */
  type Handler = (Store, Inbound, bool) -> Step

  /**
   * The loop at index.js:116 with handler `h`: the messages in order, `sendOk[k]` saying
   * whether the send for message `k` goes through; a throw ends the batch.
   */
  function BatchWith(h: Handler, store: Store, persisted: Store, msgs: seq<Inbound>, sendOk: seq<bool>): BatchState
    requires |sendOk| == |msgs|
    decreases |msgs|
  {
    if msgs == [] then BatchState(store, persisted, [], false)
    else
      var step := h(store, msgs[0], sendOk[0]);
      if step.threw then BatchState(step.store, persisted, step.effects, true)
      else
        var rest := BatchWith(h, step.store, if step.saved then step.store else persisted, msgs[1..], sendOk[1..]);
        BatchState(rest.store, rest.persisted, step.effects + rest.effects, rest.threw)
  }

  /** Index.js:116-229: a `messages.upsert` batch handled message by message. */
  function Batch(store: Store, persisted: Store, msgs: seq<Inbound>, sendOk: seq<bool>): BatchState
    requires |sendOk| == |msgs|
  {
    BatchWith(Handle, store, persisted, msgs, sendOk)
  }

  /** A batch keeps the store valid, and what it saves is a valid store. */
  lemma {:induction false} BatchPreservesValid(store: Store, persisted: Store, msgs: seq<Inbound>, sendOk: seq<bool>)
    requires |sendOk| == |msgs| && StoreValid(store) && StoreValid(persisted)
    decreases |msgs|
    ensures StoreValid(Batch(store, persisted, msgs, sendOk).store)
    ensures StoreValid(Batch(store, persisted, msgs, sendOk).persisted)
  {
    if msgs != [] {
      var step := Handle(store, msgs[0], sendOk[0]);
      HandlePreservesValid(store, msgs[0], sendOk[0]);
      if !step.threw {
        BatchPreservesValid(step.store, if step.saved then step.store else persisted, msgs[1..], sendOk[1..]);
      }
    }
  }

  /** With every send succeeding the store on disk always equals the store in memory after a batch that started in sync. */
  lemma {:induction false} BatchSaved(store: Store, persisted: Store, msgs: seq<Inbound>, sendOk: seq<bool>)
    requires |sendOk| == |msgs| && persisted == store
    requires forall k :: 0 <= k < |sendOk| ==> sendOk[k]
    decreases |msgs|
    ensures !Batch(store, persisted, msgs, sendOk).threw
    ensures Batch(store, persisted, msgs, sendOk).persisted == Batch(store, persisted, msgs, sendOk).store
  {
    if msgs != [] {
      var step := Handle(store, msgs[0], sendOk[0]);
      OnlyRecordingChangesAfterHandle(store, msgs[0], sendOk[0]);
      BatchSaved(step.store, if step.saved then step.store else persisted, msgs[1..], sendOk[1..]);
    }
  }

  /** A handled message changes the store only when it also saves it, and with a working transport it never throws. */
  lemma OnlyRecordingChangesAfterHandle(store: Store, msg: Inbound, sendOk: bool)
    ensures Handle(store, msg, sendOk).store != store ==> Handle(store, msg, sendOk).saved
    ensures sendOk ==> !Handle(store, msg, sendOk).threw
  {
    if !(msg.message.None? || msg.fromMe) && ParseCommand(msg.message.value).Some? {
      var intent := ParseCommand(msg.message.value).value;
      assert Handle(store, msg, sendOk) == Reply(store, NormalizeJid(msg.remoteJid), intent, sendOk);
      OnlyRecordingChanges(store, NormalizeJid(msg.remoteJid), intent, sendOk);
    } else {
      assert Handle(store, msg, sendOk) == Step(store, [], false, false, Skipped);
    }
  }

}
