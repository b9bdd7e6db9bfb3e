/**
 * The order record and its recipient table. `recipients` is a JavaScript object from
 * recipient JID to `null`, `"yes"` or `"no"`; objects keep their keys in insertion
 * order, so the table is an association list with distinct keys.
 */
module Orders {
  import opened Wrappers
  import opened Jid

  datatype Vote = Yes | No

  /** `null` (not answered yet), `"yes"` or `"no"`. */
  type Answer = Option<Vote>

  datatype Status = Pending | Approved | Rejected

  datatype Entry = Entry(jid: string, answer: Answer)

  datatype Order = Order(recipients: seq<Entry>, callbackUrl: Option<string>, status: Status)

  /** `pendingOrders`: order id to order. */
  type Store = map<string, Order>

  /** The body posted to an order's callback URL. */
  datatype CallbackPayload = CallbackPayload(orderId: string, user: string, status: Vote, rejectReason: Option<string>)

  /** An image given by URL (or local path), or inline as the base64 text of a data URL. */
  datatype ImagePayload = Url(url: string) | Inline(base64: string)

  /** What the bot does to the outside world: chat messages and callback posts. */
  datatype Effect =
    | SendText(to: string, text: string)
    | SendImage(to: string, image: ImagePayload, caption: string)
    | Callback(url: string, payload: CallbackPayload)

  /** JavaScript truthiness of an optional string: present and non-empty. */
  predicate Truthy(s: Option<string>) {
    s.Some? && s.value != ""
  }

  /** `Object.keys(recipients)`. */
  function Jids(rec: seq<Entry>): (keys: seq<string>)
    ensures |keys| == |rec|
    ensures forall i :: 0 <= i < |rec| ==> keys[i] == rec[i].jid
  {
    seq(|rec|, i requires 0 <= i < |rec| => rec[i].jid)
  }

  predicate DistinctJids(rec: seq<Entry>) {
    forall i, j :: 0 <= i < j < |rec| ==> rec[i].jid != rec[j].jid
  }

  /** `recipients[k]`: the answer stored under key `k`, or nothing when `k` is not a key. */
  function Get(rec: seq<Entry>, k: string): (r: Option<Answer>)
    ensures r.Some? <==> k in Jids(rec)
  {
    if rec == [] then None
    else if rec[0].jid == k then Some(rec[0].answer)
    else (assert Jids(rec) == [rec[0].jid] + Jids(rec[1..]); Get(rec[1..], k))
  }

  /** Distinctness of the keys depends only on the key sequence. */
  lemma SameJidsDistinct(a: seq<Entry>, b: seq<Entry>)
    requires Jids(a) == Jids(b) && DistinctJids(a)
    ensures DistinctJids(b)
  {
    assert forall j :: 0 <= j < |b| ==> b[j].jid == Jids(a)[j] == a[j].jid;
  }

  /** The answer at a key is the answer of the entry holding that key. */
  lemma {:induction false} GetAt(rec: seq<Entry>, i: nat)
    requires DistinctJids(rec) && i < |rec|
    ensures Get(rec, rec[i].jid) == Some(rec[i].answer)
  {
    if i > 0 {
      GetAt(rec[1..], i - 1);
    }
  }

  /**
   * `recipients[k] = a`: overwrites the value in place when `k` is a key, and otherwise
   * appends `k` as the last key.
   */
  function Put(rec: seq<Entry>, k: string, a: Answer): seq<Entry> {
    if rec == [] then [Entry(k, a)]
    else if rec[0].jid == k then [Entry(k, a)] + rec[1..]
    else [rec[0]] + Put(rec[1..], k, a)
  }

  lemma JidsCons(e: Entry, rec: seq<Entry>)
    ensures Jids([e] + rec) == [e.jid] + Jids(rec)
  {
  }

  /** Assignment keeps the key order (appending a new key), stores `a` under `k` and leaves every other key alone. */
  lemma PutSpec(rec: seq<Entry>, k: string, a: Answer)
    ensures Jids(Put(rec, k, a)) == if k in Jids(rec) then Jids(rec) else Jids(rec) + [k]
    ensures Get(Put(rec, k, a), k) == Some(a)
    ensures forall k' :: k' != k ==> Get(Put(rec, k, a), k') == Get(rec, k')
  {
    PutKeys(rec, k, a);
    PutGets(rec, k, a);
  }

  lemma {:induction false} PutKeys(rec: seq<Entry>, k: string, a: Answer)
    ensures Jids(Put(rec, k, a)) == if k in Jids(rec) then Jids(rec) else Jids(rec) + [k]
  {
    if rec != [] {
      JidsCons(rec[0], rec[1..]);
      assert rec == [rec[0]] + rec[1..];
      if rec[0].jid == k {
        JidsCons(Entry(k, a), rec[1..]);
      } else {
        PutKeys(rec[1..], k, a);
        JidsCons(rec[0], Put(rec[1..], k, a));
      }
    }
  }

  lemma {:induction false} PutGets(rec: seq<Entry>, k: string, a: Answer)
    ensures Get(Put(rec, k, a), k) == Some(a)
    ensures forall k' :: k' != k ==> Get(Put(rec, k, a), k') == Get(rec, k')
  {
    if rec != [] && rec[0].jid != k {
      PutGets(rec[1..], k, a);
      var p := Put(rec, k, a);
      assert p[0] == rec[0] && p[1..] == Put(rec[1..], k, a);
    }
  }


  /** No key has an answer yet. */
  predicate Unanswered(rec: seq<Entry>) {
    forall i :: 0 <= i < |rec| ==> rec[i].answer == None
  }

  /** Assigning `null` keeps every key unanswered. */
  lemma {:induction false} PutUnanswered(rec: seq<Entry>, k: string)
    requires Unanswered(rec)
    ensures Unanswered(Put(rec, k, None))
  {
    if rec != [] && rec[0].jid != k {
      PutUnanswered(rec[1..], k);
    }
  }

  /** Assignment keeps the keys distinct. */
  lemma PutDistinct(rec: seq<Entry>, k: string, a: Answer)
    requires DistinctJids(rec)
    ensures DistinctJids(Put(rec, k, a))
  {
    var r := Put(rec, k, a);
    PutSpec(rec, k, a);
    if k in Jids(rec) {
      SameJidsDistinct(rec, r);
    } else {
      AppendDistinct(rec, r, k);
    }
  }

  /** A new key appended to distinct keys keeps them distinct. */
  lemma AppendDistinct(rec: seq<Entry>, r: seq<Entry>, k: string)
    requires DistinctJids(rec) && k !in Jids(rec) && Jids(r) == Jids(rec) + [k]
    ensures DistinctJids(r)
  {
    forall i, j | 0 <= i < j < |r|
      ensures r[i].jid != r[j].jid
    {
      assert r[i].jid == Jids(r)[i] == Jids(rec)[i] == rec[i].jid;
      if j < |rec| {
        assert r[j].jid == Jids(r)[j] == rec[j].jid;
      } else {
        assert r[j].jid == Jids(r)[j] == k;
      }
    }
  }

  /** The keys of `rec` with their answers, every key passed through `normalizeJid`. */
  function Renamed(rec: seq<Entry>): (t: seq<Entry>)
    ensures |t| == |rec|
    ensures forall i :: 0 <= i < |rec| ==> t[i] == Entry(NormalizeJid(rec[i].jid), rec[i].answer)
  {
    seq(|rec|, i requires 0 <= i < |rec| => Entry(NormalizeJid(rec[i].jid), rec[i].answer))
  }

  /** An object built by assigning the entries in order: a later entry for the same key wins. */
  function Collect(t: seq<Entry>): map<string, Answer> {
    if t == [] then map[] else Collect(t[..|t| - 1])[t[|t| - 1].jid := t[|t| - 1].answer]
  }

  /** Building from one more entry assigns that entry last. */
  lemma CollectStep(t: seq<Entry>, i: nat)
    requires i < |t|
    ensures Collect(t[..i + 1]) == Collect(t[..i])[t[i].jid := t[i].answer]
  {
    assert t[..i + 1][..i] == t[..i];
  }

  /** The keys of the built object are the entries' keys, each with the answer of one of its entries. */
  lemma {:induction false} CollectKeys(t: seq<Entry>)
    ensures forall i :: 0 <= i < |t| ==> t[i].jid in Collect(t)
    ensures forall k :: k in Collect(t) ==> exists i :: 0 <= i < |t| && t[i].jid == k && Collect(t)[k] == t[i].answer
  {
    if t != [] {
      var last := |t| - 1;
      var init := t[..last];
      CollectKeys(init);
      assert forall i :: 0 <= i < last ==> init[i] == t[i];
      forall k | k in Collect(t)
        ensures exists i :: 0 <= i < |t| && t[i].jid == k && Collect(t)[k] == t[i].answer
      {
        if k == t[last].jid {
          assert Collect(t)[k] == t[last].answer;
        } else {
          var i :| 0 <= i < |init| && init[i].jid == k && Collect(init)[k] == init[i].answer;
          assert t[i] == init[i];
        }
      }
    }
  }

  /** The `reduce` at index.js:160-163: each key normalised, mapped to its answer; the later of two colliding keys wins. */
  function Normalized(rec: seq<Entry>): map<string, Answer> {
    Collect(Renamed(rec))
  }

  lemma NormalizedEmpty(rec: seq<Entry>)
    ensures Normalized(rec[..0]) == map[]
  {
    assert Renamed(rec[..0]) == [];
  }

  /** Normalising one more key assigns it last. */
  lemma NormalizedStep(rec: seq<Entry>, i: nat)
    requires i < |rec|
    ensures Normalized(rec[..i + 1]) == Normalized(rec[..i])[NormalizeJid(rec[i].jid) := rec[i].answer]
  {
    var t := Renamed(rec[..i + 1]);
    assert t[..i] == Renamed(rec[..i]);
    assert t[i] == Entry(NormalizeJid(rec[i].jid), rec[i].answer);
    CollectStep(t, i);
    assert t[..i + 1] == t;
  }

  /** The normalised table has exactly the normalised keys, each with the answer of some key that normalises to it. */
  lemma NormalizedKeys(rec: seq<Entry>)
    ensures forall i :: 0 <= i < |rec| ==> NormalizeJid(rec[i].jid) in Normalized(rec)
    ensures forall n :: n in Normalized(rec) ==>
      exists i :: 0 <= i < |rec| && NormalizeJid(rec[i].jid) == n && Normalized(rec)[n] == rec[i].answer
  {
    var t := Renamed(rec);
    CollectKeys(t);
    assert forall i :: 0 <= i < |rec| ==> t[i].jid == NormalizeJid(rec[i].jid);
  }

  /** `from in normalizedRecipients`: some key normalises to `from`. */
  lemma IsRecipientIff(rec: seq<Entry>, from: string)
    ensures from in Normalized(rec) <==> exists i :: 0 <= i < |rec| && NormalizeJid(rec[i].jid) == from
  {
    NormalizedKeys(rec);
  }

  /** Keys that normalise alike carry the same answer. */
  predicate Coherent(rec: seq<Entry>) {
    forall i, j :: 0 <= i < |rec| && 0 <= j < |rec| && NormalizeJid(rec[i].jid) == NormalizeJid(rec[j].jid)
      ==> rec[i].answer == rec[j].answer
  }

  /** No two keys normalise alike. */
  predicate NormInjective(rec: seq<Entry>) {
    forall i, j :: 0 <= i < |rec| && 0 <= j < |rec| && NormalizeJid(rec[i].jid) == NormalizeJid(rec[j].jid) ==> i == j
  }

  lemma InjectiveIsCoherent(rec: seq<Entry>)
    requires NormInjective(rec)
    ensures Coherent(rec)
  {
  }

  /** On a coherent table the normalised view of every key is that key's own answer, whatever the key order. */
  lemma NormalizedCoherent(rec: seq<Entry>)
    requires Coherent(rec)
    ensures forall i :: 0 <= i < |rec| ==> NormalizeJid(rec[i].jid) in Normalized(rec)
    ensures forall i :: 0 <= i < |rec| ==> Normalized(rec)[NormalizeJid(rec[i].jid)] == rec[i].answer
  {
    NormalizedKeys(rec);
    forall i | 0 <= i < |rec|
      ensures Normalized(rec)[NormalizeJid(rec[i].jid)] == rec[i].answer
    {
      var n := NormalizeJid(rec[i].jid);
      var j :| 0 <= j < |rec| && NormalizeJid(rec[j].jid) == n && Normalized(rec)[n] == rec[j].answer;
    }
  }

  /** Index.js:188-191: every original key takes the answer that its normalised form has in `answers`. */
  function WriteBack(rec: seq<Entry>, answers: map<string, Answer>): seq<Entry>
    requires forall i :: 0 <= i < |rec| ==> NormalizeJid(rec[i].jid) in answers
  {
    seq(|rec|, i requires 0 <= i < |rec| => Entry(rec[i].jid, answers[NormalizeJid(rec[i].jid)]))
  }

  /**
   * Writing back keeps the keys and their order, leaves a coherent table, and the
   * table's normalised view then agrees with `answers` on every key.
   */
  lemma WriteBackSpec(rec: seq<Entry>, answers: map<string, Answer>)
    requires forall i :: 0 <= i < |rec| ==> NormalizeJid(rec[i].jid) in answers
    ensures Jids(WriteBack(rec, answers)) == Jids(rec)
    ensures Coherent(WriteBack(rec, answers))
    ensures forall i :: 0 <= i < |rec| ==> NormalizeJid(rec[i].jid) in Normalized(WriteBack(rec, answers))
    ensures forall i :: 0 <= i < |rec| ==>
      Normalized(WriteBack(rec, answers))[NormalizeJid(rec[i].jid)] == answers[NormalizeJid(rec[i].jid)]
  {
    var r := WriteBack(rec, answers);
    NormalizedCoherent(r);
  }

  /** Every key has been answered (`every(v => v !== null)`). */
  predicate AllAnswered(rec: seq<Entry>) {
    forall i :: 0 <= i < |rec| ==> rec[i].answer.Some?
  }

  /** Every answer is `v` (`every(v => v === "yes")` and its `"no"` twin). */
  predicate AllVoted(rec: seq<Entry>, v: Vote) {
    forall i :: 0 <= i < |rec| ==> rec[i].answer == Some(v)
  }

  /** Index.js:210-227: approved when every answer is yes, rejected when every answer is no, pending otherwise. */
  function Settlement(rec: seq<Entry>): Status {
    if AllAnswered(rec) && AllVoted(rec, Yes) then Approved
    else if AllAnswered(rec) && AllVoted(rec, No) then Rejected
    else Pending
  }

  /**
   * A table with at least one recipient stays pending iff someone has not answered or
   * the answers are mixed; it is approved iff all said yes and rejected iff all said no.
   */
  lemma SettlementIff(rec: seq<Entry>)
    requires rec != []
    ensures Settlement(rec) == Pending <==>
      (exists i :: 0 <= i < |rec| && rec[i].answer.None?) ||
      ((exists i :: 0 <= i < |rec| && rec[i].answer == Some(Yes)) && (exists j :: 0 <= j < |rec| && rec[j].answer == Some(No)))
    ensures Settlement(rec) == Approved <==> AllVoted(rec, Yes)
    ensures Settlement(rec) == Rejected <==> AllVoted(rec, No)
  {
    if AllVoted(rec, Yes) {
      assert rec[0].answer == Some(Yes);
    } else if AllVoted(rec, No) {
      assert rec[0].answer == Some(No);
    } else if AllAnswered(rec) {
      var i :| 0 <= i < |rec| && rec[i].answer != Some(Yes);
      var j :| 0 <= j < |rec| && rec[j].answer != Some(No);
      assert rec[i].answer.Some? && rec[j].answer.Some?;
      assert rec[i].answer.value != Yes && rec[j].answer.value != No;
    }
  }

  /** The store never holds an order that is settled: it is empty of recipients or still pending. */
  predicate Open(rec: seq<Entry>) {
    rec == [] || Settlement(rec) == Pending
  }

  /** What holds of every order in the store: pending, distinct keys, coherent answers, not settled. */
  predicate OrderValid(o: Order) {
    o.status == Pending && DistinctJids(o.recipients) && Coherent(o.recipients) && Open(o.recipients)
  }

  predicate StoreValid(store: Store) {
    forall id :: id in store ==> OrderValid(store[id])
  }
}
