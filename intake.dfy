/**
 * Order intake, the body of `POST /send-order` (index.js:262-317): validate the request,
 * send the message and the attachments to every recipient, and register the order
 * only when every send went through.
 */
module Intake {
  import opened Wrappers
  import opened Ascii
  import opened Jid
  import opened Orders

  /** The JSON body of the request; absent fields are `None`. */
  datatype Request = Request(
    orderId: Option<string>,
    recipients: Option<seq<string>>,
    message: Option<string>,
    callbackUrl: Option<string>,
    identity: Option<string>,
    flightTicket: Option<string>,
    hotelTicket: Option<string>)

  datatype Failure =
    | InvalidRequest   // 400: orderId, recipients and message are required
    | NotConnected     // 500: the WhatsApp session is not open
    | SendFailed       // 500: a send threw
    | BadImage         // 500: a data URL without a comma (`Buffer.from(undefined)` throws)

  /** The HTTP status of each failure. */
  function StatusCode(f: Failure): (code: int)
    ensures code == 400 <==> f == InvalidRequest
    ensures code == 400 || code == 500
  {
    if f == InvalidRequest then 400 else 500
  }

  /** One attachment field with its caption. */
  datatype Attachment = Attachment(value: Option<string>, caption: string)

  const PassportCaption := "\U{1FAAA} Passport"
  const FlightCaption := "\U{2708}\U{FE0F} Tiket Penerbangan"
  const HotelCaption := "\U{1F3E8} Tiket Hotel"

  /** `imageFields`: identity, then flight ticket, then hotel ticket. */
  function ImageFields(req: Request): seq<Attachment> {
    [Attachment(req.identity, PassportCaption), Attachment(req.flightTicket, FlightCaption), Attachment(req.hotelTicket, HotelCaption)]
  }

  /** The text before the first comma, or all of `s` when it has none. */
  function FirstField(s: string): (r: string)
    ensures r <= s && ',' !in r
    ensures r == s || s[|r|] == ','
  {
    s[..IndexOf(s, ',')]
  }

  /** `split(",")[1]`: the text between the first and the second comma, absent when there is no comma. */
  function SecondField(v: string): (r: Option<string>)
    ensures r.None? <==> ',' !in v
    ensures r.Some? ==> ',' !in r.value
    ensures r.Some? ==>
      var after := IndexOf(v, ',') + 1;
      r.value <= v[after..] && (after + |r.value| == |v| || v[after + |r.value|] == ',')
  {
    var i := IndexOf(v, ',');
    if i == |v| then (assert v[..i] == v; None) else Some(FirstField(v[i + 1..]))
  }

  /** Index.js:289-297: `http…` is a URL, `data:image…` is inline base64, anything else is a URL (a local path). */
  function ClassifyImage(v: string): Result<ImagePayload, Failure> {
    if StartsWith(v, "http") then Ok(Url(v))
    else if StartsWith(v, "data:image") then
      match SecondField(v)
      case None => Err(BadImage)
      case Some(b) => Ok(Inline(b))
    else Ok(Url(v))
  }

  /**
   * The classifier gives back the value itself as a URL unless it is a data URL; a data
   * URL gives the field after its first comma, and fails exactly when it has no comma.
   */
  lemma ClassifyImageSpec(v: string)
    ensures ClassifyImage(v) == Ok(Url(v)) <==> "http" <= v || !("data:image" <= v)
    ensures ClassifyImage(v).Err? <==> !("http" <= v) && "data:image" <= v && ',' !in v
    ensures ClassifyImage(v).Err? ==> ClassifyImage(v).error == BadImage
    ensures ClassifyImage(v).Ok? && ClassifyImage(v).value.Inline? ==>
      SecondField(v) == Some(ClassifyImage(v).value.base64)
  {
    StartsWithPrefix(v, "http");
    StartsWithPrefix(v, "data:image");
    if "data:image" <= v && !("http" <= v) && ',' in v {
      var r := SecondField(v);
      assert ClassifyImage(v) == Ok(Inline(r.value));
    }
  }

  /** A data URL `<header>,<base64>` gives back exactly its base64 text. */
  lemma InlineRoundTrip(header: string, b: string)
    requires "data:image" <= header && ',' !in header && ',' !in b
    ensures ClassifyImage(header + [','] + b) == Ok(Inline(b))
  {
    DataUrlPrefix(header, header + [','] + b);
    SecondFieldOf(header, b);
  }

  /** Text that starts with a data-URL header is a data URL and not an `http` one. */
  lemma DataUrlPrefix(header: string, v: string)
    requires "data:image" <= header && header <= v
    ensures StartsWith(v, "data:image") && !StartsWith(v, "http")
  {
    StartsWithPrefix(v, "http");
    StartsWithPrefix(v, "data:image");
    assert v[..10] == header[..10] == "data:image";
    assert v[0] == 'd';
  }

  /** The second comma-separated field of `<header>,<base64>` is the base64 text. */
  lemma SecondFieldOf(header: string, b: string)
    requires ',' !in header && ',' !in b
    ensures SecondField(header + [','] + b) == Some(b)
  {
    var v := header + [','] + b;
    var i := IndexOf(v, ',');
    assert v[..|header|] == header && v[|header|] == ',';
    assert i == |header|;
    var rest := v[i + 1..];
    assert rest == b;
    assert IndexOf(rest, ',') == |b| && rest[..|b|] == b;
  }

  /** A step of the send script: a send, or the throw of an image that cannot be decoded. */
  datatype Op = Send(effect: Effect) | Undecodable

  /**
   * An attachment as the send loop meets it: its caption, and nothing when the value is
   * falsy, else the classifier's verdict on the value. Classifying is pure, so the
   * verdict is the same at every recipient.
   */
  datatype Prepared = Prepared(caption: string, image: Option<Result<ImagePayload, Failure>>)

  function Prepare(field: Attachment): Prepared {
    Prepared(field.caption, if Truthy(field.value) then Some(ClassifyImage(field.value.value)) else None)
  }

  /** `imageFields`, each prepared. */
  function Images(req: Request): seq<Prepared> {
    var f := ImageFields(req);
    [Prepare(f[0]), Prepare(f[1]), Prepare(f[2])]
  }

  /** One attachment: nothing when its value is falsy, else its image or the throw of an undecodable one. */
  function FieldOps(jid: string, image: Prepared): seq<Op> {
    match image.image
    case None => []
    case Some(Ok(p)) => [Send(SendImage(jid, p, image.caption))]
    case Some(Err(_)) => [Undecodable]
  }

  /** The inner loop over `imageFields`, in order. */
  function ImageOps(jid: string, images: seq<Prepared>): seq<Op> {
    if images == [] then [] else FieldOps(jid, images[0]) + ImageOps(jid, images[1..])
  }

  /** What is done for one recipient: the message first, then the attachments. */
  function RecipientOps(r: string, message: string, images: seq<Prepared>): seq<Op> {
    [Send(SendText(DeliveryJid(r), message))] + ImageOps(DeliveryJid(r), images)
  }

  /** The outer loop over the recipients, in order. */
  function Script(rs: seq<string>, message: string, images: seq<Prepared>): seq<Op> {
    if rs == [] then [] else RecipientOps(rs[0], message, images) + Script(rs[1..], message, images)
  }

  /** The attachments go identity, flight ticket, hotel ticket, each skipped when empty. */
  lemma AttachmentOrder(jid: string, req: Request)
    ensures ImageOps(jid, Images(req)) ==
      FieldOps(jid, Prepare(Attachment(req.identity, PassportCaption)))
      + FieldOps(jid, Prepare(Attachment(req.flightTicket, FlightCaption)))
      + FieldOps(jid, Prepare(Attachment(req.hotelTicket, HotelCaption)))
    ensures !Truthy(req.identity) && !Truthy(req.flightTicket) && !Truthy(req.hotelTicket) ==> ImageOps(jid, Images(req)) == []
  {
    var f := Images(req);
    assert f[1..][1..][1..] == [];
    assert ImageOps(jid, f[1..][1..]) == FieldOps(jid, f[2]) + [];
  }

  /** Every recipient's steps are the message to its key, then its attachments. */
  lemma RecipientOpsShape(r: string, message: string, images: seq<Prepared>)
    ensures RecipientOps(r, message, images)[0] == Send(SendText(DeliveryJid(r), message))
    ensures forall i :: 1 <= i < |RecipientOps(r, message, images)| ==>
      RecipientOps(r, message, images)[i] == ImageOps(DeliveryJid(r), images)[i - 1]
  {
  }

  /** What running a script did: the sends that went through, and the failure that ended it, if any. */
  datatype Run = Run(sent: seq<Effect>, failure: Option<Failure>)

  /** A run preceded by the sends `done`. */
  function Then(done: seq<Effect>, run: Run): Run {
    Run(done + run.sent, run.failure)
  }

  /** Runs a script, `failAt` naming the send attempt that throws (counted from `k`), if any. */
  function Execute(ops: seq<Op>, failAt: Option<nat>, k: nat): Run
    decreases |ops|
  {
    if ops == [] then Run([], None)
    else
      match ops[0]
      case Undecodable => Run([], Some(BadImage))
      case Send(e) =>
        if failAt == Some(k) then Run([], Some(SendFailed))
        else
          var rest := Execute(ops[1..], failAt, k + 1);
          Run([e] + rest.sent, rest.failure)
  }

  predicate AllSends(ops: seq<Op>) {
    forall i :: 0 <= i < |ops| ==> ops[i].Send?
  }

  /**
   * A run sends a prefix of the script's sends in order; it ends without failure iff the
   * script has no throw and the failing attempt, if any, lies outside it, and then it
   * has sent everything.
   */
  lemma {:induction false} ExecuteSpec(ops: seq<Op>, failAt: Option<nat>, k: nat)
    ensures |Execute(ops, failAt, k).sent| <= |ops|
    ensures forall i :: 0 <= i < |Execute(ops, failAt, k).sent| ==> ops[i] == Send(Execute(ops, failAt, k).sent[i])
    ensures Execute(ops, failAt, k).failure.None? <==>
      AllSends(ops) && (failAt.None? || failAt.value < k || failAt.value >= k + |ops|)
    ensures Execute(ops, failAt, k).failure.None? ==> |Execute(ops, failAt, k).sent| == |ops|
    ensures Execute(ops, failAt, k).failure.Some? ==> Execute(ops, failAt, k).failure.value in {SendFailed, BadImage}
    decreases |ops|
  {
    if ops != [] && ops[0].Send? && failAt != Some(k) {
      ExecuteSpec(ops[1..], failAt, k + 1);
      var rest := Execute(ops[1..], failAt, k + 1);
      assert forall i :: 1 <= i < |ops| ==> ops[1..][i - 1] == ops[i];
      if AllSends(ops[1..]) {
        assert AllSends(ops);
      }
    }
  }

  /** Running two scripts one after the other: the second starts where the first stopped, unless the first failed. */
  lemma ExecuteAppend(a: seq<Op>, b: seq<Op>, failAt: Option<nat>, k: nat)
    ensures Execute(a, failAt, k).failure.Some? ==> Execute(a + b, failAt, k) == Execute(a, failAt, k)
    ensures Execute(a, failAt, k).failure.None? ==>
      Execute(a + b, failAt, k) ==
        Run(Execute(a, failAt, k).sent + Execute(b, failAt, k + |Execute(a, failAt, k).sent|).sent,
            Execute(b, failAt, k + |Execute(a, failAt, k).sent|).failure)
  {
    if Execute(a, failAt, k).failure.Some? {
      ExecuteStops(a, b, failAt, k);
    } else {
      ExecuteGoesOn(a, b, failAt, k);
    }
  }

  lemma {:induction false} ExecuteStops(a: seq<Op>, b: seq<Op>, failAt: Option<nat>, k: nat)
    requires Execute(a, failAt, k).failure.Some?
    ensures Execute(a + b, failAt, k) == Execute(a, failAt, k)
    decreases |a|
  {
    assert (a + b)[0] == a[0];
    if a[0].Send? && failAt != Some(k) {
      assert (a + b)[1..] == a[1..] + b;
      ExecuteStops(a[1..], b, failAt, k + 1);
    }
  }

  /** A script whose first step went through, with more steps after it. */
  lemma ExecuteFirstSend(a: seq<Op>, b: seq<Op>, failAt: Option<nat>, k: nat)
    requires a != [] && Execute(a, failAt, k).failure.None?
    ensures a[0].Send?
    ensures Execute(a, failAt, k) == Then([a[0].effect], Execute(a[1..], failAt, k + 1))
    ensures Execute(a + b, failAt, k) == Then([a[0].effect], Execute(a[1..] + b, failAt, k + 1))
  {
    assert (a + b)[0] == a[0] && (a + b)[1..] == a[1..] + b;
  }

  lemma {:induction false} ExecuteGoesOn(a: seq<Op>, b: seq<Op>, failAt: Option<nat>, k: nat)
    requires Execute(a, failAt, k).failure.None?
    ensures Execute(a + b, failAt, k) ==
      Run(Execute(a, failAt, k).sent + Execute(b, failAt, k + |Execute(a, failAt, k).sent|).sent,
          Execute(b, failAt, k + |Execute(a, failAt, k).sent|).failure)
    decreases |a|
  {
    if a == [] {
      assert a + b == b;
    } else {
      ExecuteFirstSend(a, b, failAt, k);
      ExecuteGoesOn(a[1..], b, failAt, k + 1);
      var ra := Execute(a[1..], failAt, k + 1);
      var rb := Execute(b, failAt, k + 1 + |ra.sent|);
      assert [a[0].effect] + (ra.sent + rb.sent) == ([a[0].effect] + ra.sent) + rb.sent;
    }
  }

  /** One attachment run as the request loop runs it: skipped, refused by the classifier, thrown by the send, or sent. */
  function FieldRun(jid: string, image: Prepared, failAt: Option<nat>, k: nat): Run {
    match image.image
    case None => Run([], None)
    case Some(Err(_)) => Run([], Some(BadImage))
    case Some(Ok(p)) => if failAt == Some(k) then Run([], Some(SendFailed)) else Run([SendImage(jid, p, image.caption)], None)
  }

  /** Runs `step` on each element in order, numbering attempts on from `k`, and stops at the first failure. */
  function Chain<T>(step: (T, nat) -> Run, xs: seq<T>, k: nat): Run
    decreases |xs|
  {
    if xs == [] then Run([], None)
    else
      var r := step(xs[0], k);
      if r.failure.Some? then r else Then(r.sent, Chain(step, xs[1..], k + |r.sent|))
  }

  /** Running one more element after a chain that went through continues from the attempts already used. */
  lemma {:induction false} ChainSnoc<T>(step: (T, nat) -> Run, xs: seq<T>, x: T, k: nat)
    ensures Chain(step, xs + [x], k) ==
      (var a := Chain(step, xs, k); if a.failure.Some? then a else Then(a.sent, step(x, k + |a.sent|)))
    decreases |xs|
  {
    if xs == [] {
      assert [x][1..] == [];
      assert step(x, k).sent + [] == step(x, k).sent;
    } else {
      assert (xs + [x])[0] == xs[0] && (xs + [x])[1..] == xs[1..] + [x];
      var r := step(xs[0], k);
      if r.failure.None? {
        var b := Chain(step, xs[1..], k + |r.sent|);
        ChainSnoc(step, xs[1..], x, k + |r.sent|);
        if b.failure.None? {
          assert r.sent + (b.sent + step(x, k + |r.sent| + |b.sent|).sent)
              == (r.sent + b.sent) + step(x, k + |r.sent| + |b.sent|).sent;
        }
      }
    }
  }

  /** Once a chain has failed, the elements after it are never run. */
  lemma {:induction false} ChainStops<T>(step: (T, nat) -> Run, xs: seq<T>, ys: seq<T>, k: nat)
    requires Chain(step, xs, k).failure.Some?
    ensures Chain(step, xs + ys, k) == Chain(step, xs, k)
    decreases |xs|
  {
    assert (xs + ys)[0] == xs[0] && (xs + ys)[1..] == xs[1..] + ys;
    var r := step(xs[0], k);
    if r.failure.None? {
      ChainStops(step, xs[1..], ys, k + |r.sent|);
    }
  }

  /**
   * One turn of a loop that got through its first `i` elements with the sends `sent`:
   * element `i` runs as the next attempt; if it fails the loop is over, else `i + 1` elements are through.
   */
  lemma ChainNext<T>(step: (T, nat) -> Run, xs: seq<T>, i: nat, k: nat, sent: seq<Effect>, r: Run)
    requires i < |xs| && Chain(step, xs[..i], k) == Run(sent, None) && r == step(xs[i], k + |sent|)
    ensures r.failure.None? ==> Chain(step, xs[..i + 1], k) == Run(sent + r.sent, None)
    ensures r.failure.Some? ==> Chain(step, xs, k) == Run(sent + r.sent, r.failure)
  {
    assert xs[..i + 1] == xs[..i] + [xs[i]];
    ChainSnoc(step, xs[..i], xs[i], k);
    if r.failure.Some? {
      ChainStops(step, xs[..i + 1], xs[i + 1..], k);
      assert xs[..i + 1] + xs[i + 1..] == xs;
    }
  }

  /** The attachment step of the inner loop, for one delivery address. */
  function AttachStep(jid: string, failAt: Option<nat>): (Prepared, nat) -> Run {
    (image: Prepared, k: nat) => FieldRun(jid, image, failAt, k)
  }

  /** The attachments of one recipient, stopping at the first failure. */
  function FieldsRun(jid: string, images: seq<Prepared>, failAt: Option<nat>, k: nat): Run {
    Chain(AttachStep(jid, failAt), images, k)
  }

  /** One recipient: the message as attempt `k`, then the attachments. */
  function DeliverRun(jid: string, message: string, images: seq<Prepared>, failAt: Option<nat>, k: nat): Run {
    if failAt == Some(k) then Run([], Some(SendFailed))
    else Then([SendText(jid, message)], FieldsRun(jid, images, failAt, k + 1))
  }

  /** The recipient step of the outer loop. */
  function DeliverStep(message: string, images: seq<Prepared>, failAt: Option<nat>): (string, nat) -> Run {
    (r: string, k: nat) => DeliverRun(DeliveryJid(r), message, images, failAt, k)
  }

  /** The recipients in order, stopping at the first failure. */
  function RecipientsRun(rs: seq<string>, message: string, images: seq<Prepared>, failAt: Option<nat>, k: nat): Run {
    Chain(DeliverStep(message, images, failAt), rs, k)
  }

  /** One turn of the attachment loop, in the terms of the loop: attachment `j` after the first `j` went through. */
  lemma FieldsNext(jid: string, images: seq<Prepared>, j: nat, failAt: Option<nat>, k: nat, sent: seq<Effect>)
    requires j < |images| && FieldsRun(jid, images[..j], failAt, k) == Run(sent, None)
    ensures
      var r := FieldRun(jid, images[j], failAt, k + |sent|);
      && (r.failure.None? ==> FieldsRun(jid, images[..j + 1], failAt, k) == Run(sent + r.sent, None))
      && (r.failure.Some? ==> FieldsRun(jid, images, failAt, k) == Run(sent + r.sent, r.failure))
  {
    ChainNext(AttachStep(jid, failAt), images, j, k, sent, FieldRun(jid, images[j], failAt, k + |sent|));
  }

  /** One turn of the recipient loop, in the terms of the loop: recipient `i` after the first `i` went through. */
  lemma RecipientsNext(rs: seq<string>, i: nat, message: string, images: seq<Prepared>, failAt: Option<nat>, sent: seq<Effect>)
    requires i < |rs| && RecipientsRun(rs[..i], message, images, failAt, 0) == Run(sent, None)
    ensures
      var r := DeliverRun(DeliveryJid(rs[i]), message, images, failAt, |sent|);
      && (r.failure.None? ==> RecipientsRun(rs[..i + 1], message, images, failAt, 0) == Run(sent + r.sent, None))
      && (r.failure.Some? ==> RecipientsRun(rs, message, images, failAt, 0) == Run(sent + r.sent, r.failure))
  {
    ChainNext(DeliverStep(message, images, failAt), rs, i, 0, sent, DeliverRun(DeliveryJid(rs[i]), message, images, failAt, |sent|));
  }

  /** An attachment run is its script run. */
  lemma FieldRunAgrees(jid: string, image: Prepared, failAt: Option<nat>, k: nat)
    ensures FieldRun(jid, image, failAt, k) == Execute(FieldOps(jid, image), failAt, k)
  {
    if image.image.Some? && image.image.value.Ok? {
      var ops := FieldOps(jid, image);
      assert ops[1..] == [];
    }
  }

  /** The attachment loop is the script of the attachments, run. */
  lemma {:induction false} FieldsRunAgrees(jid: string, images: seq<Prepared>, failAt: Option<nat>, k: nat)
    ensures FieldsRun(jid, images, failAt, k) == Execute(ImageOps(jid, images), failAt, k)
    decreases |images|
  {
    if images != [] {
      var r := FieldRun(jid, images[0], failAt, k);
      assert AttachStep(jid, failAt)(images[0], k) == r;
      FieldRunAgrees(jid, images[0], failAt, k);
      ExecuteAppend(FieldOps(jid, images[0]), ImageOps(jid, images[1..]), failAt, k);
      if r.failure.None? {
        FieldsRunAgrees(jid, images[1..], failAt, k + |r.sent|);
      }
    }
  }

  /** The loop body for one recipient is that recipient's script, run. */
  lemma DeliverRunAgrees(r: string, message: string, images: seq<Prepared>, failAt: Option<nat>, k: nat)
    ensures DeliverRun(DeliveryJid(r), message, images, failAt, k) == Execute(RecipientOps(r, message, images), failAt, k)
  {
    var jid := DeliveryJid(r);
    var ops := RecipientOps(r, message, images);
    assert ops[0] == Send(SendText(jid, message)) && ops[1..] == ImageOps(jid, images);
    FieldsRunAgrees(jid, images, failAt, k + 1);
  }

  /** The request's nested loops run exactly the script of the whole request. */
  lemma {:induction false} RecipientsRunAgrees(rs: seq<string>, message: string, images: seq<Prepared>, failAt: Option<nat>, k: nat)
    ensures RecipientsRun(rs, message, images, failAt, k) == Execute(Script(rs, message, images), failAt, k)
    decreases |rs|
  {
    if rs != [] {
      DeliverRunAgrees(rs[0], message, images, failAt, k);
      ExecuteAppend(RecipientOps(rs[0], message, images), Script(rs[1..], message, images), failAt, k);
      var r := DeliverRun(DeliveryJid(rs[0]), message, images, failAt, k);
      if r.failure.None? {
        RecipientsRunAgrees(rs[1..], message, images, failAt, k + |r.sent|);
      }
    }
  }

  /** The keys built for the recipients: each recipient's delivery address mapped to `null`, in first-seen order. */
  function KeyEntries(rs: seq<string>): seq<Entry> {
    if rs == [] then [] else Put(KeyEntries(rs[..|rs| - 1]), DeliveryJid(rs[|rs| - 1]), None)
  }

  /**
   * The keys are distinct and unanswered, there is one per distinct delivery address
   * and no other (duplicates collapse), and so there are never more keys than recipients.
   */
  lemma KeyEntriesSpec(rs: seq<string>)
    ensures DistinctJids(KeyEntries(rs))
    ensures forall i :: 0 <= i < |KeyEntries(rs)| ==> KeyEntries(rs)[i].answer == None
    ensures forall r :: r in rs ==> DeliveryJid(r) in Jids(KeyEntries(rs))
    ensures forall k :: k in Jids(KeyEntries(rs)) ==> exists r :: r in rs && DeliveryJid(r) == k
    ensures |KeyEntries(rs)| <= |rs|
  {
    KeyEntriesDistinct(rs);
    KeyEntriesUnanswered(rs);
    KeyEntriesKeys(rs);
  }

  lemma {:induction false} KeyEntriesDistinct(rs: seq<string>)
    ensures DistinctJids(KeyEntries(rs))
  {
    if rs != [] {
      KeyEntriesDistinct(rs[..|rs| - 1]);
      PutDistinct(KeyEntries(rs[..|rs| - 1]), DeliveryJid(rs[|rs| - 1]), None);
    }
  }

  lemma {:induction false} KeyEntriesUnanswered(rs: seq<string>)
    ensures Unanswered(KeyEntries(rs))
  {
    if rs != [] {
      KeyEntriesUnanswered(rs[..|rs| - 1]);
      PutUnanswered(KeyEntries(rs[..|rs| - 1]), DeliveryJid(rs[|rs| - 1]));
    }
  }

  lemma KeyEntriesKeys(rs: seq<string>)
    ensures forall r :: r in rs ==> DeliveryJid(r) in Jids(KeyEntries(rs))
    ensures forall k :: k in Jids(KeyEntries(rs)) ==> exists r :: r in rs && DeliveryJid(r) == k
    ensures |KeyEntries(rs)| <= |rs|
  {
    KeyEntriesCover(rs);
    KeyEntriesOnly(rs);
    KeyEntriesBound(rs);
  }

  lemma {:induction false} KeyEntriesCover(rs: seq<string>)
    ensures forall r :: r in rs ==> DeliveryJid(r) in Jids(KeyEntries(rs))
  {
    if rs != [] {
      var init := rs[..|rs| - 1];
      var last := rs[|rs| - 1];
      KeyEntriesCover(init);
      PutKeys(KeyEntries(init), DeliveryJid(last), None);
      var before := Jids(KeyEntries(init));
      var after := Jids(KeyEntries(rs));
      assert DeliveryJid(last) in after;
      assert forall j :: 0 <= j < |before| ==> before[j] == after[j];
      forall r | r in rs
        ensures DeliveryJid(r) in after
      {
        if r != last {
          assert r in init by { assert rs == init + [last]; }
          var j :| 0 <= j < |before| && before[j] == DeliveryJid(r);
          assert after[j] == DeliveryJid(r);
        }
      }
    }
  }

  lemma {:induction false} KeyEntriesOnly(rs: seq<string>)
    ensures forall k :: k in Jids(KeyEntries(rs)) ==> exists r :: r in rs && DeliveryJid(r) == k
  {
    if rs != [] {
      var init := rs[..|rs| - 1];
      var last := rs[|rs| - 1];
      KeyEntriesOnly(init);
      PutKeys(KeyEntries(init), DeliveryJid(last), None);
      forall k | k in Jids(KeyEntries(rs))
        ensures exists r :: r in rs && DeliveryJid(r) == k
      {
        if k == DeliveryJid(last) {
          assert last in rs;
        } else {
          var r :| r in init && DeliveryJid(r) == k;
          assert r in rs;
        }
      }
    }
  }

  lemma {:induction false} KeyEntriesBound(rs: seq<string>)
    ensures |KeyEntries(rs)| <= |rs|
  {
    if rs != [] {
      KeyEntriesBound(rs[..|rs| - 1]);
      PutKeys(KeyEntries(rs[..|rs| - 1]), DeliveryJid(rs[|rs| - 1]), None);
    }
  }

  /** A freshly registered order is valid: pending, distinct unanswered keys, not settled. */
  lemma NewOrderValid(rs: seq<string>, callbackUrl: Option<string>)
    ensures OrderValid(Order(KeyEntries(rs), callbackUrl, Pending))
  {
    var rec := KeyEntries(rs);
    KeyEntriesSpec(rs);
    if rec != [] {
      assert !AllAnswered(rec) by { assert rec[0].answer == None; }
    }
  }

  /** What one request did: the new store, the sends that went through, whether the store was saved, and the response. */
  datatype IntakeStep = IntakeStep(store: Store, effects: seq<Effect>, saved: bool, result: Result<string, Failure>)

  /** `!orderId || !recipients || !message`; an empty recipient list is accepted. */
  predicate ValidRequest(req: Request) {
    Truthy(req.orderId) && req.recipients.Some? && Truthy(req.message)
  }

  /** Index.js:262-317. */
  function SendOrder(store: Store, connected: bool, req: Request, failAt: Option<nat>): IntakeStep {
    if !ValidRequest(req) then IntakeStep(store, [], false, Err(InvalidRequest))
    else if !connected then IntakeStep(store, [], false, Err(NotConnected))
    else
      var run := Execute(Script(req.recipients.value, req.message.value, Images(req)), failAt, 0);
      if run.failure.Some? then IntakeStep(store, run.sent, false, Err(run.failure.value))
      else
        var id := req.orderId.value;
        IntakeStep(store[id := Order(KeyEntries(req.recipients.value), req.callbackUrl, Pending)], run.sent, true, Ok(id))
  }

  /** A request without order id, recipients or message is refused with 400 before anything is sent or stored. */
  lemma InvalidRequestRefused(store: Store, connected: bool, req: Request, failAt: Option<nat>)
    ensures SendOrder(store, connected, req, failAt).result == Err(InvalidRequest) <==> !ValidRequest(req)
    ensures !ValidRequest(req) ==> SendOrder(store, connected, req, failAt) == IntakeStep(store, [], false, Err(InvalidRequest))
  {
    if ValidRequest(req) && connected {
      ExecuteSpec(Script(req.recipients.value, req.message.value, Images(req)), failAt, 0);
    }
  }

  /** While disconnected, a valid request is refused with 500 before anything is sent or stored. */
  lemma DisconnectedRefused(store: Store, req: Request, failAt: Option<nat>)
    requires ValidRequest(req)
    ensures SendOrder(store, false, req, failAt) == IntakeStep(store, [], false, Err(NotConnected))
  {
  }

  /**
   * The store changes only when the request succeeds, and then exactly by putting the
   * new order (overwriting one with the same id) and saving; a failed request leaves
   * the store as it was, unsaved, with the sends made before the failure already out.
   */
  lemma SendOrderAtomic(store: Store, connected: bool, req: Request, failAt: Option<nat>)
    ensures SendOrder(store, connected, req, failAt).result.Err? ==>
      SendOrder(store, connected, req, failAt).store == store && !SendOrder(store, connected, req, failAt).saved
    ensures SendOrder(store, connected, req, failAt).result.Ok? ==>
      && ValidRequest(req) && connected
      && SendOrder(store, connected, req, failAt).result.value == req.orderId.value
      && SendOrder(store, connected, req, failAt).saved
      && SendOrder(store, connected, req, failAt).store ==
           store[req.orderId.value := Order(KeyEntries(req.recipients.value), req.callbackUrl, Pending)]
  {
  }

  /**
   * A valid request on an open session succeeds iff no attachment fails to decode and no
   * send throws; every send it made is a step of the script, in order, and on success
   * it has made all of them.
   */
  lemma SendOrderSucceedsIff(store: Store, req: Request, failAt: Option<nat>)
    requires ValidRequest(req)
    ensures
      var ops := Script(req.recipients.value, req.message.value, Images(req));
      var step := SendOrder(store, true, req, failAt);
      && (step.result.Ok? <==> AllSends(ops) && (failAt.None? || failAt.value >= |ops|))
      && |step.effects| <= |ops|
      && (forall i :: 0 <= i < |step.effects| ==> ops[i] == Send(step.effects[i]))
      && (step.result.Ok? ==> |step.effects| == |ops|)
  {
    ExecuteSpec(Script(req.recipients.value, req.message.value, Images(req)), failAt, 0);
  }

  /** Intake keeps every order in the store valid. */
  lemma SendOrderPreservesValid(store: Store, connected: bool, req: Request, failAt: Option<nat>)
    requires StoreValid(store)
    ensures StoreValid(SendOrder(store, connected, req, failAt).store)
  {
    if SendOrder(store, connected, req, failAt).result.Ok? {
      NewOrderValid(req.recipients.value, req.callbackUrl);
    }
  }
}
