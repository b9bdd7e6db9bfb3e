/**
 * Reading a reply: the text of an inbound message and the command grammar
 * `/^(APPROVE|REJECT)\s+(\S+)(?:\s+(.*))?$/`, applied to the trimmed, upper-cased text.
 */
module Command {
  import opened Wrappers
  import opened Ascii

  datatype Action = Approve | Reject

  /** The three capture groups of the command grammar; the third is absent when the optional group did not take part. */
  datatype Match = Match(action: Action, orderId: string, remainder: Option<string>)

  /** A recognised reply: the action, the order it names and the optional reason (for either action). */
  datatype Intent = Intent(action: Action, orderId: string, reason: Option<string>)

  /** The text-bearing fields of an inbound message: conversation, extended text, image caption. */
  datatype Content = Content(conversation: Option<string>, extendedText: Option<string>, imageCaption: Option<string>)

  function Keyword(a: Action): string {
    match a
    case Approve => "APPROVE"
    case Reject => "REJECT"
  }

  /** The regular-expression match, written out as the greedy scan a backtracking matcher settles on. */
  function MatchCommand(t: string): Option<Match> {
    if Keyword(Approve) <= t then MatchAfter(Approve, t[|Keyword(Approve)|..])
    else if Keyword(Reject) <= t then MatchAfter(Reject, t[|Keyword(Reject)|..])
    else None
  }

  /** `\s+(\S+)(?:\s+(.*))?$` on the text after the keyword. */
  function MatchAfter(a: Action, s: string): Option<Match> {
    var gap := SpaceRun(s);
    var rest := s[gap..];
    var id := WordRun(rest);
    if gap == 0 || id == 0 then None
    else
      var tail := rest[id..];
      if tail == [] then Some(Match(a, rest[..id], None))
      else
        var q := tail[SpaceRun(tail)..];
        if NoLineBreak(q) then Some(Match(a, rest[..id], Some(q))) else None
  }

  /** What follows the order id: nothing, or the separator and the remainder. */
  function Tail(m: Match, sep: string): string {
    match m.remainder
    case None => ""
    case Some(q) => sep + q
  }

  /**
   * The grammar as a predicate: `t` is the keyword, a non-empty run of whitespace `gap`,
   * a non-empty whitespace-free order id and, when the third group is present, a
   * non-empty run of whitespace `sep` followed by a single-line remainder that does
   * not itself start with whitespace (the greedy `\s+` took it all).
   */
  ghost predicate Layout(t: string, m: Match, gap: string, sep: string) {
    && gap != [] && AllSpace(gap)
    && m.orderId != [] && NoSpace(m.orderId)
    && (m.remainder.Some? ==>
          && sep != [] && AllSpace(sep)
          && NoLineBreak(m.remainder.value)
          && (m.remainder.value == [] || !IsSpace(m.remainder.value[0])))
    && t == Keyword(m.action) + (gap + (m.orderId + Tail(m, sep)))
  }

  /** Every text laid out by the grammar is matched, with exactly its parts as the groups. */
  lemma MatchComplete(t: string, m: Match, gap: string, sep: string)
    requires Layout(t, m, gap, sep)
    ensures MatchCommand(t) == Some(m)
  {
    var k := Keyword(m.action);
    var x := Tail(m, sep);
    assert k <= t;
    assert m.action == Reject ==> !(Keyword(Approve) <= t) by {
      if m.action == Reject {
        assert t[0] == 'R';
      }
    }
    assert t[|k|..] == gap + (m.orderId + x);
    AfterComplete(m, gap, sep);
  }

  lemma AfterComplete(m: Match, gap: string, sep: string)
    requires Layout(Keyword(m.action) + (gap + (m.orderId + Tail(m, sep))), m, gap, sep)
    ensures MatchAfter(m.action, gap + (m.orderId + Tail(m, sep))) == Some(m)
  {
    var x := Tail(m, sep);
    var s := gap + (m.orderId + x);
    SpaceRunOf(gap, m.orderId + x);
    assert s[|gap|..] == m.orderId + x;
    assert x == [] || IsSpace(x[0]);
    WordRunOf(m.orderId, x);
    assert (m.orderId + x)[..|m.orderId|] == m.orderId;
    assert (m.orderId + x)[|m.orderId|..] == x;
    if m.remainder.Some? {
      var q := m.remainder.value;
      SpaceRunOf(sep, q);
      assert x[|sep|..] == q;
    }
  }

  /** Every match comes from a text laid out by the grammar. */
  lemma MatchSound(t: string)
    requires MatchCommand(t).Some?
    ensures exists gap, sep :: Layout(t, MatchCommand(t).value, gap, sep)
  {
    var a := if Keyword(Approve) <= t then Approve else Reject;
    var k := Keyword(a);
    assert k <= t && MatchCommand(t) == MatchAfter(a, t[|k|..]);
    KeywordSound(a, t);
  }

  /** A match after keyword `a` at the head of `t` comes from a text laid out by the grammar. */
  lemma KeywordSound(a: Action, t: string)
    requires Keyword(a) <= t && MatchAfter(a, t[|Keyword(a)|..]).Some?
    ensures exists gap, sep :: Layout(t, MatchAfter(a, t[|Keyword(a)|..]).value, gap, sep)
  {
    var k := Keyword(a);
    var s := t[|k|..];
    assert t == k + s;
    var gap, sep := AfterSound(a, s);
    assert Layout(t, MatchAfter(a, s).value, gap, sep);
  }

  /** The separators of a successful match after the keyword. */
  lemma AfterSound(a: Action, s: string) returns (gap: string, sep: string)
    requires MatchAfter(a, s).Some?
    ensures var m := MatchAfter(a, s).value;
      && m.action == a
      && gap != [] && AllSpace(gap)
      && m.orderId != [] && NoSpace(m.orderId)
      && (m.remainder.Some? ==>
            && sep != [] && AllSpace(sep)
            && NoLineBreak(m.remainder.value)
            && (m.remainder.value == [] || !IsSpace(m.remainder.value[0])))
      && s == gap + (m.orderId + Tail(m, sep))
  {
    var m := MatchAfter(a, s).value;
    var n := SpaceRun(s);
    var rest := s[n..];
    var i := WordRun(rest);
    gap := s[..n];
    var id := rest[..i];
    var tail := rest[i..];
    assert s == gap + rest;
    assert rest == id + tail;
    if tail == [] {
      sep := [];
    } else {
      var j := SpaceRun(tail);
      assert j > 0 by { assert IsSpace(rest[i]); }
      sep := tail[..j];
      assert tail == sep + tail[j..];
    }
  }

  /** The grammar and the match agree: a text is matched with groups `m` iff it is laid out as `m`. */
  lemma MatchIff(t: string, m: Match)
    ensures MatchCommand(t) == Some(m) <==> exists gap, sep :: Layout(t, m, gap, sep)
  {
    if MatchCommand(t) == Some(m) {
      MatchSound(t);
    }
    if exists gap, sep :: Layout(t, m, gap, sep) {
      var gap, sep :| Layout(t, m, gap, sep);
      MatchComplete(t, m, gap, sep);
    }
  }

  /** `field?.trim()`, with an absent field read as the empty text. */
  function TrimmedField(field: Option<string>): string {
    match field
    case None => ""
    case Some(s) => Trim(s)
  }

  /**
   * `conversation?.trim() || extendedTextMessage?.text?.trim() || imageMessage?.caption?.trim() || ""`:
   * the first field that is not blank, trimmed.
   */
  function MessageText(c: Content): (text: string)
    ensures Trimmed(text)
    ensures text == "" <==>
      TrimmedField(c.conversation) == "" && TrimmedField(c.extendedText) == "" && TrimmedField(c.imageCaption) == ""
    ensures TrimmedField(c.conversation) != "" ==> text == TrimmedField(c.conversation)
    ensures TrimmedField(c.conversation) == "" && TrimmedField(c.extendedText) != "" ==>
      text == TrimmedField(c.extendedText)
    ensures TrimmedField(c.conversation) == "" && TrimmedField(c.extendedText) == "" ==>
      text == TrimmedField(c.imageCaption)
  {
    if TrimmedField(c.conversation) != "" then TrimmedField(c.conversation)
    else if TrimmedField(c.extendedText) != "" then TrimmedField(c.extendedText)
    else TrimmedField(c.imageCaption)
  }

  /** `match[3]?.trim() || null`: a blank or absent remainder gives no reason. */
  function ReasonOf(remainder: Option<string>): (reason: Option<string>)
    ensures reason.Some? ==> reason.value != "" && Trimmed(reason.value)
    ensures remainder.None? ==> reason.None?
  {
    match remainder
    case None => None
    case Some(q) => if Trim(q) == "" then None else Some(Trim(q))
  }

  /** The text of the message upper-cased, as the grammar sees it. */
  function CommandText(c: Content): string {
    Upper(MessageText(c))
  }

  /** Lines 131-149: the intent of a message, or nothing when its text is empty or does not match. */
  function ParseCommand(c: Content): Option<Intent> {
    var upper := CommandText(c);
    if upper == "" then None
    else
      match MatchCommand(upper)
      case None => None
      case Some(m) => Some(Intent(m.action, m.orderId, ReasonOf(m.remainder)))
  }

  /**
   * A message is accepted iff its trimmed, upper-cased text is laid out by the grammar;
   * the intent then carries the layout's action and order id, and its remainder as the reason.
   */
  lemma ParseAccepts(c: Content, m: Match)
    ensures (exists gap, sep :: Layout(CommandText(c), m, gap, sep))
        <==> MatchCommand(CommandText(c)) == Some(m) && ParseCommand(c) == Some(Intent(m.action, m.orderId, m.remainder))
  {
    var t := CommandText(c);
    MatchIff(t, m);
    if MatchCommand(t) == Some(m) {
      TextTrimmed(c);
      ReasonOfLayout(t, m);
    }
  }

  /** The upper-cased text keeps the trimming of the message text. */
  lemma TextTrimmed(c: Content)
    ensures Trimmed(CommandText(c))
  {
  }

  /** On a trimmed text a present remainder is itself trimmed and non-empty, so it is the reason verbatim. */
  lemma ReasonOfLayout(t: string, m: Match)
    requires Trimmed(t)
    requires exists gap, sep :: Layout(t, m, gap, sep)
    ensures ReasonOf(m.remainder) == m.remainder
  {
    var gap, sep :| Layout(t, m, gap, sep);
    if m.remainder.Some? {
      var q := m.remainder.value;
      var x := sep + q;
      LastOf(Keyword(m.action), gap + (m.orderId + x));
      LastOf(gap, m.orderId + x);
      LastOf(m.orderId, x);
      if q != [] {
        LastOf(sep, q);
        TrimTrimmed(q);
      }
    }
  }

  lemma LastOf(a: string, b: string)
    requires b != []
    ensures (a + b)[|a + b| - 1] == b[|b| - 1]
  {
  }

  /** The order id and the reason of an intent are upper case, and the id is a single token. */
  lemma IntentIsUpper(c: Content)
    requires ParseCommand(c).Some?
    ensures NoLower(ParseCommand(c).value.orderId)
    ensures ParseCommand(c).value.orderId != [] && NoSpace(ParseCommand(c).value.orderId)
    ensures ParseCommand(c).value.reason.Some? ==> NoLower(ParseCommand(c).value.reason.value)
  {
    var t := CommandText(c);
    var m := MatchCommand(t).value;
    MatchSound(t);
    var gap, sep :| Layout(t, m, gap, sep);
    NoLowerSplit(Keyword(m.action), gap + (m.orderId + Tail(m, sep)));
    NoLowerSplit(gap, m.orderId + Tail(m, sep));
    NoLowerSplit(m.orderId, Tail(m, sep));
    if m.remainder.Some? {
      NoLowerSplit(sep, m.remainder.value);
      TrimNoLower(m.remainder.value);
    }
  }

  lemma NoLowerSplit(a: string, b: string)
    requires NoLower(a + b)
    ensures NoLower(a) && NoLower(b)
  {
    assert forall i :: 0 <= i < |a| ==> a[i] == (a + b)[i];
    assert forall i :: 0 <= i < |b| ==> b[i] == (a + b)[|a| + i];
  }

  /** Trimming keeps a text free of lower-case letters. */
  lemma TrimNoLower(s: string)
    requires NoLower(s)
    ensures NoLower(Trim(s))
  {
    var a := s[SpaceRun(s)..];
    assert forall i :: 0 <= i < |a| ==> a[i] == s[SpaceRun(s) + i];
  }

  /**
   * The reason is captured for APPROVE as well as REJECT: `approve <id> <reason>` in any
   * letter case yields the upper-cased id and the upper-cased reason.
   */
  lemma ApproveCarriesReason(id: string, reason: string)
    requires id != [] && NoSpace(id)
    requires reason != [] && Trimmed(reason) && NoLineBreak(reason)
    ensures ParseCommand(Content(Some("approve" + (" " + (id + (" " + reason)))), None, None))
         == Some(Intent(Approve, Upper(id), Some(Upper(reason))))
  {
    var text := "approve" + (" " + (id + (" " + reason)));
    var c := Content(Some(text), None, None);
    ApproveText(text, id, reason);
    assert MessageText(c) == text;
    var m := Match(Approve, Upper(id), Some(Upper(reason)));
    ApproveLayout(CommandText(c), text, id, reason);
    ParseAccepts(c, m);
  }

  lemma ApproveText(text: string, id: string, reason: string)
    requires text == "approve" + (" " + (id + (" " + reason)))
    requires reason != [] && Trimmed(reason)
    ensures TrimmedField(Some(text)) == text && text != ""
  {
    assert text[0] == 'a';
    assert text[|text| - 1] == reason[|reason| - 1];
    TrimTrimmed(text);
  }

  lemma ApproveLayout(t: string, text: string, id: string, reason: string)
    requires text == "approve" + (" " + (id + (" " + reason)))
    requires t == Upper(text)
    requires id != [] && NoSpace(id)
    requires reason != [] && Trimmed(reason) && NoLineBreak(reason)
    ensures Layout(t, Match(Approve, Upper(id), Some(Upper(reason))), " ", " ")
  {
    UpperConcat("approve", " " + (id + (" " + reason)));
    UpperConcat(" ", id + (" " + reason));
    UpperConcat(id, " " + reason);
    UpperConcat(" ", reason);
    assert Upper("approve") == Keyword(Approve);
    assert Upper(" ") == " ";
  }

  /** A text outside the grammar is not a command. */
  lemma GreetingIgnored()
    ensures ParseCommand(Content(Some("HELLO"), None, None)) == None
  {
    TrimTrimmed("HELLO");
    UpperNoLower("HELLO");
  }

  /** A blank message is not a command. */
  lemma BlankIgnored(c: Content)
    requires MessageText(c) == ""
    ensures ParseCommand(c) == None
  {
  }
}
