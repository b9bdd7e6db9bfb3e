/**
 * WhatsApp addresses (JIDs): the normaliser applied to senders and recipient keys
 * when a reply comes in, the key the intake endpoint builds from a phone number,
 * and the user part reported to the callback.
 */
module Jid {
  import opened Ascii

  /** The suffix of a personal WhatsApp address. */
  const UserSuffix := "@s.whatsapp.net"

  /** `/^(\+)?/` replaced by "": drops one leading plus sign. */
  function StripPlus(s: string): string {
    if "+" <= s then s[1..] else s
  }

  /** `replace(/<suffix>$/, replacement)`: rewrites `suffix` when the text ends with it. */
  function ReplaceSuffix(s: string, suffix: string, replacement: string): string {
    if EndsWith(s, suffix) then s[..|s| - |suffix|] + replacement else s
  }

  /** The two suffix rewrites, `@c.us` first. */
  function RewriteSuffixes(a: string): string {
    ReplaceSuffix(ReplaceSuffix(a, "@c.us", UserSuffix), "@whatsapp.net", UserSuffix)
  }

  /** `normalizeJid`: strip one leading `+`, map `@c.us` and `@whatsapp.net` to `@s.whatsapp.net`, trim. */
  function NormalizeJid(jid: string): (r: string)
    ensures Trimmed(r)
  {
    Trim(RewriteSuffixes(StripPlus(jid)))
  }

  /** A fixed point of the normaliser. */
  predicate Canonical(s: string) {
    && !("+" <= s)
    && Trimmed(s)
    && !EndsWith(s, "@c.us")
    && !EndsWith(s, "@whatsapp.net")
  }

  /** An address with no leading `+`, no surrounding whitespace and neither foreign suffix is returned unchanged. */
  lemma NormalizeCanonical(s: string)
    requires Canonical(s)
    ensures NormalizeJid(s) == s
  {
    TrimTrimmed(s);
  }

  /** `p + "@s.whatsapp.net"` ends with neither foreign suffix and has the first character of `p` (or `@`). */
  lemma UserSuffixShape(p: string)
    ensures !EndsWith(p + UserSuffix, "@c.us")
    ensures !EndsWith(p + UserSuffix, "@whatsapp.net")
    ensures (p + UserSuffix)[0] == if p == [] then '@' else p[0]
    ensures !IsSpace((p + UserSuffix)[|p + UserSuffix| - 1])
  {
    var t := p + UserSuffix;
    assert t[|t| - 1] == 't';
    assert t[|t| - 13] == '.';
  }

  /**
   * The normaliser is idempotent on addresses whose `+`-stripped form has no further
   * leading `+` and no surrounding whitespace.
   */
  lemma NormalizeIdempotent(s: string)
    requires Trimmed(StripPlus(s)) && !("+" <= StripPlus(s))
    ensures Canonical(NormalizeJid(s))
    ensures NormalizeJid(NormalizeJid(s)) == NormalizeJid(s)
  {
    var a := StripPlus(s);
    var c := RewriteSuffixes(a);
    RewriteCanonical(a);
    TrimTrimmed(c);
    NormalizeCanonical(c);
  }

  /** The suffix rewrites turn a trimmed text without a leading `+` into a canonical one. */
  lemma RewriteCanonical(a: string)
    requires Trimmed(a) && !("+" <= a)
    ensures Canonical(RewriteSuffixes(a))
  {
    var b := ReplaceSuffix(a, "@c.us", UserSuffix);
    if EndsWith(a, "@c.us") {
      RewriteOne(a, "@c.us");
      assert b == a[..|a| - 5] + UserSuffix;
      UserSuffixShape(a[..|a| - 5]);
    } else if EndsWith(a, "@whatsapp.net") {
      RewriteOne(a, "@whatsapp.net");
    }
  }

  /** Replacing a foreign suffix yields a canonical text. */
  lemma RewriteOne(a: string, suffix: string)
    requires Trimmed(a) && !("+" <= a)
    requires suffix == "@c.us" || suffix == "@whatsapp.net"
    requires EndsWith(a, suffix)
    ensures Canonical(a[..|a| - |suffix|] + UserSuffix)
  {
    var p := a[..|a| - |suffix|];
    UserSuffixShape(p);
    var t := p + UserSuffix;
    assert p != [] ==> p[0] == a[0];
    assert t[0] != '+' && !IsSpace(t[0]);
  }

  /** Two passes can differ: a doubled plus sign ... */
  lemma NotIdempotentOnDoublePlus()
    ensures NormalizeJid("++1") == "+1"
    ensures NormalizeJid(NormalizeJid("++1")) == "1"
  {
    TrimTrimmed("+1");
    TrimTrimmed("1");
  }

  /**
   * ... and trailing whitespace that hides a suffix from the rewrite: `p@c.us` followed
   * by whitespace loses only the whitespace on the first pass and is rewritten on the
   * second (for example `"1@c.us "`).
   */
  lemma NotIdempotentOnTrailingSpace(p: string, w: string)
    requires p == [] || (p[0] != '+' && !IsSpace(p[0]))
    requires w != [] && AllSpace(w)
    ensures NormalizeJid(p + "@c.us" + w) == p + "@c.us"
    ensures NormalizeJid(NormalizeJid(p + "@c.us" + w)) == p + UserSuffix
    ensures p + UserSuffix != p + "@c.us"
  {
    CUsShape(p);
    SpaceHidesSuffix(p + "@c.us", w);
    CUsRewritten(p);
  }

  lemma CUsShape(p: string)
    requires p == [] || (p[0] != '+' && !IsSpace(p[0]))
    ensures p + "@c.us" != [] && (p + "@c.us")[0] != '+' && Trimmed(p + "@c.us")
    ensures p + UserSuffix != p + "@c.us"
  {
    var a := p + "@c.us";
    assert a[0] == if p == [] then '@' else p[0];
    assert a[|a| - 1] == 's';
    assert (p + UserSuffix)[|p + UserSuffix| - 1] == 't';
  }

  lemma CUsRewritten(p: string)
    requires p == [] || (p[0] != '+' && !IsSpace(p[0]))
    ensures NormalizeJid(p + "@c.us") == p + UserSuffix
  {
    NormalizeUser(p, "@c.us");
  }

  /** Whitespace after the text keeps the rewrite from seeing a suffix; the trim then removes only the whitespace. */
  lemma SpaceHidesSuffix(a: string, w: string)
    requires a != [] && a[0] != '+' && Trimmed(a)
    requires w != [] && AllSpace(w)
    ensures NormalizeJid(a + w) == a
  {
    var s := a + w;
    assert !EndsWith(s, "@c.us") by { assert s[|s| - 1] == w[|w| - 1]; }
    assert !EndsWith(s, "@whatsapp.net") by { assert s[|s| - 1] == w[|w| - 1]; }
    assert s[0] == a[0];
    assert StripPlus(s) == s;
    TrimExact([], a, w);
    assert [] + a + w == s;
  }

  /**
   * The surface forms of one user (with or without a leading `+`, with any of the three
   * suffixes) all normalise to `p + "@s.whatsapp.net"`.
   */
  lemma SameRecipient(p: string, plus: bool, suffix: string)
    requires p == [] || (p[0] != '+' && !IsSpace(p[0]))
    requires suffix == "@c.us" || suffix == "@whatsapp.net" || suffix == UserSuffix
    ensures NormalizeJid((if plus then "+" else "") + p + suffix) == p + UserSuffix
  {
    StripOnePlus(p, plus, suffix);
    RewriteToUser(p, suffix);
    UserSuffixShape(p);
    TrimTrimmed(p + UserSuffix);
  }

  /** The same without a leading plus sign. */
  lemma NormalizeUser(p: string, suffix: string)
    requires p == [] || (p[0] != '+' && !IsSpace(p[0]))
    requires suffix == "@c.us" || suffix == "@whatsapp.net" || suffix == UserSuffix
    ensures NormalizeJid(p + suffix) == p + UserSuffix
  {
    NoPlus(p, suffix);
    RewriteToUser(p, suffix);
    UserSuffixShape(p);
    TrimTrimmed(p + UserSuffix);
  }

  lemma NoPlus(p: string, suffix: string)
    requires p == [] || p[0] != '+'
    requires suffix != [] && suffix[0] == '@'
    ensures StripPlus(p + suffix) == p + suffix
  {
    assert (p + suffix)[0] == if p == [] then suffix[0] else p[0];
  }

  lemma StripOnePlus(p: string, plus: bool, suffix: string)
    requires p == [] || p[0] != '+'
    requires suffix != [] && suffix[0] == '@'
    ensures StripPlus((if plus then "+" else "") + p + suffix) == p + suffix
  {
    var s := (if plus then "+" else "") + p + suffix;
    var a := p + suffix;
    if plus {
      assert s == "+" + a;
      assert s[1..] == a;
    } else {
      assert s == a;
      assert a[0] == if p == [] then suffix[0] else p[0];
    }
  }

  lemma RewriteToUser(p: string, suffix: string)
    requires suffix == "@c.us" || suffix == "@whatsapp.net" || suffix == UserSuffix
    ensures RewriteSuffixes(p + suffix) == p + UserSuffix
  {
    var a := p + suffix;
    UserSuffixShape(p);
    if suffix == "@c.us" {
      assert EndsWith(a, "@c.us");
      assert a[..|a| - 5] == p;
    } else if suffix == "@whatsapp.net" {
      assert !EndsWith(a, "@c.us") by { assert a[|a| - 1] == 't'; }
      assert EndsWith(a, "@whatsapp.net");
      assert a[..|a| - 13] == p;
    }
  }

  /** A phone number as the intake endpoint receives it: decimal digits only. */
  predicate PhoneNumber(p: string) {
    p != [] && forall i :: 0 <= i < |p| ==> '0' <= p[i] <= '9'
  }

  lemma {:induction false} ContainsSuffix(x: string, p: string)
    ensures Contains(x + p, p)
  {
    if x != [] {
      assert (x + p)[1..] == x[1..] + p;
      ContainsSuffix(x[1..], p);
    } else {
      assert x + p == p;
    }
  }

  /** The recipient key the intake endpoint builds: `r` if it mentions `@s.whatsapp.net`, else `r + "@s.whatsapp.net"`. */
  function DeliveryJid(r: string): (jid: string)
    ensures Contains(jid, UserSuffix)
    ensures Contains(r, UserSuffix) ==> jid == r
    ensures jid == r || jid == r + UserSuffix
  {
    if Contains(r, UserSuffix) then r else (ContainsSuffix(r, UserSuffix); r + UserSuffix)
  }

  /** Building the key twice changes nothing. */
  lemma DeliveryJidIdempotent(r: string)
    ensures DeliveryJid(DeliveryJid(r)) == DeliveryJid(r)
  {
  }

  /**
   * A bare phone number, with or without a leading `+`, becomes a key that the sender
   * address `p + "@s.whatsapp.net"` normalises onto.
   */
  lemma DeliveryJidOfPhone(p: string, plus: bool)
    requires PhoneNumber(p)
    ensures DeliveryJid((if plus then "+" else "") + p) == (if plus then "+" else "") + p + UserSuffix
    ensures NormalizeJid(DeliveryJid((if plus then "+" else "") + p)) == p + UserSuffix
  {
    PhoneKey(p, plus);
    SameRecipient(p, plus, UserSuffix);
  }

  /** A sender address `p + "@s.whatsapp.net"` is already in normal form. */
  lemma UserAddressNormal(p: string)
    requires PhoneNumber(p)
    ensures NormalizeJid(p + UserSuffix) == p + UserSuffix
  {
    NormalizeUser(p, UserSuffix);
  }

  lemma PhoneKey(p: string, plus: bool)
    requires PhoneNumber(p)
    ensures DeliveryJid((if plus then "+" else "") + p) == (if plus then "+" else "") + p + UserSuffix
  {
    var r := (if plus then "+" else "") + p;
    assert '@' !in r by {
      assert forall i :: 0 <= i < |r| ==> r[i] == '+' || '0' <= r[i] <= '9';
    }
    NotContains(r, UserSuffix, '@');
  }

  /**
   * `from.replace(/@.*$/, "")`: cuts the text at the first `@` after which no line
   * break occurs (a regular-expression `.` does not match a line break).
   */
  function CleanNumber(s: string): (r: string)
    ensures r <= s
    ensures |r| < |s| ==> s[|r|] == '@' && NoLineBreak(s[|r|..])
    ensures forall k :: 0 <= k < |r| && s[k] == '@' ==> !NoLineBreak(s[k..])
  {
    if s == [] then []
    else if s[0] == '@' && NoLineBreak(s) then []
    else
      var r := [s[0]] + CleanNumber(s[1..]);
      assert forall k :: 1 <= k < |s| ==> s[k..] == s[1..][k - 1..];
      r
  }

  /** On a single-line address the user part is everything before the first `@`. */
  lemma CleanNumberOfAddress(user: string, host: string)
    requires '@' !in user && NoLineBreak(host)
    ensures CleanNumber(user + "@" + host) == user
  {
    var s := user + "@" + host;
    var r := CleanNumber(s);
    var tail := s[|user|..];
    assert tail == "@" + host;
    assert NoLineBreak(tail) by {
      forall i | 0 <= i < |tail| ensures !IsLineBreak(tail[i]) {
        if i > 0 { assert tail[i] == host[i - 1]; }
      }
    }
    assert s[|user|] == '@';
    // The cut is not after the `@` that ends the user part ...
    assert !(|user| < |r|);
    // ... nor before it, since the user part holds no `@`.
    assert forall k :: 0 <= k < |user| ==> s[k] == user[k] && s[k] != '@';
    assert !(|r| < |user|);
    assert s[..|user|] == user;
  }
}
