/**
 * A mail kept as its raw bytes plus the envelope sender and recipients, with
 * header-derived views filled in on first use and then kept, and header values
 * rewritten in place.
 */
module Mail {
  import opened Common
  import opened Addresses
  import opened MailParse
  import opened Headers
  import opened VecOps

  /** The needles the getters search for: a newline, the lower-case header name and its colon. */
  const ToNeedle: Bytes := Ascii("\nto:")
  const FromNeedle: Bytes := Ascii("\nfrom:")
  const CcNeedle: Bytes := Ascii("\ncc:")
  const BccNeedle: Bytes := Ascii("\nbcc:")
  const SubjectNeedle: Bytes := Ascii("\nsubject:")
  const UserAgentNeedle: Bytes := Ascii("\nuser-agent:")

  /** The header name `set_recipient` rewrites (no colon: the needle is `"\nto"`). */
  const ToName: Bytes := Ascii("to")

  /** The address used when neither the headers nor the envelope name a sender. */
  const NoReply: Bytes := Ascii("noreply@localhost")

  /** The brackets around the address shown by `Undisclosed` and `Sender`. */
  const OpenAngle: Bytes := Ascii(" <")
  const CloseAngle: Bytes := Ascii(">")
  const EmptyAngles: Bytes := Ascii(" <>")

  /** What the rewritten "to" header shows of the new recipients. */
  datatype Disclosure =
    | Open                    // the new recipient list itself
    | Undisclosed(name: Bytes) // `name <>`
    | Keep                    // the header is left as it is
    | Sender(name: Bytes)      // `name <sender address>`

  /** The usual undisclosed-recipients policy. */
  function UndisclosedRecipients(): (d: Disclosure)
    ensures forall p, r, hs, es :: ToHeaderValue(p, d, r, hs, es) == Some(Ascii("Undisclosed Recipients <>"))
  {
    AsciiConcat("Undisclosed Recipients", " <>");
    assert "Undisclosed Recipients" + " <>" == "Undisclosed Recipients <>";
    Undisclosed(Ascii("Undisclosed Recipients"))
  }

  /** The address shown under the `Sender` policy: first header sender, else first envelope sender, else `noreply@localhost`. */
  function SenderAddress(headerSenders: AddrList, envelopeSenders: AddrList): (a: Bytes)
    ensures a == NoReply || (exists x :: x in IterAddrs(headerSenders) && x.addr == a)
      || (exists x :: x in IterAddrs(envelopeSenders) && x.addr == a)
  {
    match FirstAddr(headerSenders)
    case Some(a) => a.addr
    case None =>
      match FirstAddr(envelopeSenders)
      case Some(a) => a.addr
      case None => NoReply
  }

  /**
   * The new value of the "to" header under policy `d`, or `None` when the header
   * is kept. `headerSenders` and `envelopeSenders` matter only to `Sender`.
   */
  function ToHeaderValue(p: MailParser, d: Disclosure, recipients: AddrList, headerSenders: AddrList, envelopeSenders: AddrList): (r: Option<Bytes>)
    ensures r.None? <==> d.Keep?
    ensures d.Open? ==> r == Some(p.display(recipients))
    ensures (d.Undisclosed? || d.Sender?) ==> |r.value| > |d.name| && r.value[..|d.name|] == d.name && r.value[|r.value| - 1] == 62
  {
    match d
    case Open => Some(p.display(recipients))
    case Undisclosed(name) => Some(name + EmptyAngles)
    case Keep => None
    case Sender(name) => Some(name + OpenAngle + SenderAddress(headerSenders, envelopeSenders) + CloseAngle)
  }

  /** The `Sender` policy shows the first sender the headers declare, falling back to the envelope, then to `noreply@localhost`. */
  lemma SenderAddressFallback(headerSenders: AddrList, envelopeSenders: AddrList)
    ensures FirstAddr(headerSenders).Some? ==> SenderAddress(headerSenders, envelopeSenders) == FirstAddr(headerSenders).value.addr
    ensures (forall i :: 0 <= i < |headerSenders| ==> Expand(headerSenders[i]) == []) && FirstAddr(envelopeSenders).Some? ==>
      SenderAddress(headerSenders, envelopeSenders) == FirstAddr(envelopeSenders).value.addr
    ensures ((forall i :: 0 <= i < |headerSenders| ==> Expand(headerSenders[i]) == []) &&
      (forall i :: 0 <= i < |envelopeSenders| ==> Expand(envelopeSenders[i]) == [])) ==>
      SenderAddress(headerSenders, envelopeSenders) == Ascii("noreply@localhost")
  {
    FirstAddrNone(headerSenders);
    FirstAddrNone(envelopeSenders);
  }

  /** The `Undisclosed` policy shows its name followed by an empty address, `name <>`. */
  lemma UndisclosedShowsName(p: MailParser, name: Bytes, recipients: AddrList, headerSenders: AddrList, envelopeSenders: AddrList)
    ensures ToHeaderValue(p, Undisclosed(name), recipients, headerSenders, envelopeSenders) == Some(name + EmptyAngles)
  {
  }

  /**
   * The `Sender` policy shows its name and, in angle brackets, the first header
   * sender, else the first envelope sender, else `noreply@localhost`.
   */
  lemma SenderShows(p: MailParser, name: Bytes, recipients: AddrList, headerSenders: AddrList, envelopeSenders: AddrList)
    ensures FirstAddr(headerSenders).Some? ==>
      ToHeaderValue(p, Sender(name), recipients, headerSenders, envelopeSenders)
        == Some(name + OpenAngle + FirstAddr(headerSenders).value.addr + CloseAngle)
    ensures FirstAddr(headerSenders).None? && FirstAddr(envelopeSenders).Some? ==>
      ToHeaderValue(p, Sender(name), recipients, headerSenders, envelopeSenders)
        == Some(name + OpenAngle + FirstAddr(envelopeSenders).value.addr + CloseAngle)
    ensures FirstAddr(headerSenders).None? && FirstAddr(envelopeSenders).None? ==>
      ToHeaderValue(p, Sender(name), recipients, headerSenders, envelopeSenders)
        == Some(name + OpenAngle + NoReply + CloseAngle)
  {
  }

  /**
   * Only `Open` reveals the new recipients: under every other policy the new
   * header value is the same whatever the recipient list.
   */
  lemma OnlyOpenDisclosesRecipients(p: MailParser, d: Disclosure, r1: AddrList, r2: AddrList, hs: AddrList, es: AddrList)
    requires !d.Open?
    ensures ToHeaderValue(p, d, r1, hs, es) == ToHeaderValue(p, d, r2, hs, es)
    ensures d.Keep? <==> ToHeaderValue(p, d, r1, hs, es).None?
  {
  }

  /**
   * The needle of `set_recipient` has no colon, so it also matches a longer
   * header name: in `"x\nTopic: a\nTo: b\n\n"` the "to" header is located in
   * `Topic`, at index 3.
   */
  lemma ToNameMatchesTopic()
    ensures GetHeaderIdx(Ascii("x\nTopic: a\nTo: b\n\n"), [LF] + ToName) == Some(3)
  {
    var c := Ascii("x\nTopic: a\nTo: b\n\n");
    assert ToName == HitNameName;
    assert c[..4] == [120, LF, 84, 111];
    HitNameLocated(c);
  }

  /**
   * Shrinking: moving the tail left over the surplus, cutting the buffer and
   * writing the new value leaves the value span replaced by `s`.
   */
  lemma ShrinkSplices(v: Bytes, startValue: nat, endValue: nat, s: Bytes)
    requires startValue <= endValue <= |v| && |s| < endValue - startValue
    ensures var d := endValue + |s| - (endValue - startValue);
      var moved := CopyWithin(v, endValue, |v|, d);
      var cut := Truncate(moved, |moved| + |s| - (endValue - startValue));
      startValue + |s| <= |cut| && CopyFromSlice(cut, startValue, s) == v[..startValue] + s + v[endValue..]
  {
  }

  /**
   * Growing (or equal length): padding the buffer, moving the tail right and
   * writing the new value leaves the value span replaced by `s`.
   */
  lemma GrowSplices(v: Bytes, startValue: nat, endValue: nat, s: Bytes)
    requires startValue <= endValue <= |v| && endValue - startValue <= |s|
    ensures var currentLen := endValue - startValue;
      var padded := Resize(v, |v| + |s| - currentLen, 0);
      var moved := CopyWithin(padded, endValue, |v|, endValue + |s| - currentLen);
      startValue + |s| <= |moved| && CopyFromSlice(moved, startValue, s) == v[..startValue] + s + v[endValue..]
  {
  }

  /** The mail: raw bytes, envelope addresses, and six memo slots. */
  class UnparsedMail {
    var contents: Bytes
    var from: AddrList
    var to: AddrList

    var recipients: Option<AddrList>
    var sender: Option<AddrList>
    var cc: Option<AddrList>
    var bcc: Option<AddrList>
    var subject: Option<Bytes>
    var userAgent: Option<Bytes>

    constructor (buf: Bytes, from: AddrList, to: AddrList)
      ensures contents == buf && this.from == from && this.to == to
      ensures recipients.None? && sender.None? && cc.None? && bcc.None?
      ensures subject.None? && userAgent.None?
      ensures IntoParts() == (buf, from, to)
    {
      contents := buf;
      this.from := from;
      this.to := to;
      recipients, sender, cc, bcc := None, None, None, None;
      subject, userAgent := None, None;
    }

    /** The buffer and the envelope sender and recipients. */
    function IntoParts(): (Bytes, AddrList, AddrList)
      reads this
    {
      (contents, from, to)
    }

    /** The header "to" addresses, parsed on first use and kept. */
    method GetRecipients(p: MailParser) returns (r: AddrList)
      modifies this`recipients
      ensures old(recipients).Some? ==> r == old(recipients).value
      ensures old(recipients).None? ==> r == HeaderAddrs(p, contents, ToNeedle)
      ensures recipients == Some(r)
    {
      if recipients.Some? {
        return recipients.value;
      }
      r := HeaderAddrs(p, contents, ToNeedle);
      recipients := Some(r);
    }

    /** The header "from" addresses, parsed on first use and kept. */
    method GetSender(p: MailParser) returns (r: AddrList)
      modifies this`sender
      ensures old(sender).Some? ==> r == old(sender).value
      ensures old(sender).None? ==> r == HeaderAddrs(p, contents, FromNeedle)
      ensures sender == Some(r)
    {
      if sender.Some? {
        return sender.value;
      }
      r := HeaderAddrs(p, contents, FromNeedle);
      sender := Some(r);
    }

    /** The "cc" addresses, parsed on first use and kept. */
    method GetCc(p: MailParser) returns (r: AddrList)
      modifies this`cc
      ensures old(cc).Some? ==> r == old(cc).value
      ensures old(cc).None? ==> r == HeaderAddrs(p, contents, CcNeedle)
      ensures cc == Some(r)
    {
      if cc.Some? {
        return cc.value;
      }
      r := HeaderAddrs(p, contents, CcNeedle);
      cc := Some(r);
    }

    /** The "bcc" addresses, parsed on first use and kept. */
    method GetBcc(p: MailParser) returns (r: AddrList)
      modifies this`bcc
      ensures old(bcc).Some? ==> r == old(bcc).value
      ensures old(bcc).None? ==> r == HeaderAddrs(p, contents, BccNeedle)
      ensures bcc == Some(r)
    {
      if bcc.Some? {
        return bcc.value;
      }
      r := HeaderAddrs(p, contents, BccNeedle);
      bcc := Some(r);
    }

    /** The subject, decoded on first use and kept; empty when missing. */
    method GetSubject(p: MailParser) returns (r: Bytes)
      modifies this`subject
      ensures old(subject).Some? ==> r == old(subject).value
      ensures old(subject).None? ==> r == HeaderValue(p, contents, SubjectNeedle)
      ensures subject == Some(r)
    {
      if subject.Some? {
        return subject.value;
      }
      r := HeaderValue(p, contents, SubjectNeedle);
      subject := Some(r);
    }

    /** The user agent, decoded on first use and kept; empty when missing. */
    method GetUa(p: MailParser) returns (r: Bytes)
      modifies this`userAgent
      ensures old(userAgent).Some? ==> r == old(userAgent).value
      ensures old(userAgent).None? ==> r == HeaderValue(p, contents, UserAgentNeedle)
      ensures userAgent == Some(r)
    {
      if userAgent.Some? {
        return userAgent.value;
      }
      r := HeaderValue(p, contents, UserAgentNeedle);
      userAgent := Some(r);
    }

    /** The user agent, absent exactly when the kept value is empty. */
    method UserAgent(p: MailParser) returns (ua: Option<Bytes>)
      modifies this`userAgent
      ensures old(userAgent).Some? ==> userAgent == old(userAgent)
      ensures old(userAgent).None? ==> userAgent == Some(HeaderValue(p, contents, UserAgentNeedle))
      ensures userAgent.Some?
      ensures ua.None? <==> userAgent.value == []
      ensures ua.Some? ==> ua.value == userAgent.value
    {
      var s := GetUa(p);
      if s == [] {
        ua := None;
      } else {
        ua := Some(s);
      }
    }

    /** The domain of the first header-declared recipient. */
    method HeaderDomain(p: MailParser) returns (d: Option<Bytes>)
      modifies this`recipients
      ensures old(recipients).Some? ==> recipients == old(recipients)
      ensures old(recipients).None? ==> recipients == Some(HeaderAddrs(p, contents, ToNeedle))
      ensures recipients.Some? && d == DomainOf(recipients.value)
    {
      var addrs := GetRecipients(p);
      d := DomainOf(addrs);
    }

    /** The domain of the first envelope recipient. */
    method Domain() returns (d: Option<Bytes>)
      ensures d == DomainOf(to)
    {
      d := DomainOf(to);
    }

    /**
     * Replaces the value of header `name` by `s` in place, shrinking or growing
     * the buffer; a no-op when the header is not located or does not parse.
     */
    method SetHeader(p: MailParser, name: Bytes, s: Bytes)
      requires p.Sound()
      modifies this`contents
      ensures contents == SetHeaderResult(p, old(contents), name, s)
    {
      var span := ValueSpan(p, contents, name);
      if span.Some? {
        SpliceValue(span.value.start, span.value.end, s);
      }
    }

    /**
     * Overwrites `contents[startValue..endValue]` with `s`: the bytes after the
     * span are first moved left (then the buffer is cut) or the buffer is first
     * padded (then they are moved right), so that the span has exactly `|s|` bytes.
     */
    method SpliceValue(startValue: nat, endValue: nat, s: Bytes)
      requires startValue <= endValue <= |contents|
      modifies this`contents
      ensures contents == old(contents)[..startValue] + s + old(contents)[endValue..]
    {
      var currentLen := endValue - startValue;
      ghost var before := contents;
      if currentLen > |s| {
        contents := CopyWithin(contents, endValue, |contents|, endValue + |s| - currentLen);
        contents := Truncate(contents, |contents| + |s| - currentLen);
        ShrinkSplices(before, startValue, endValue, s);
      } else {
        var previousLen := |contents|;
        contents := Resize(contents, |contents| + |s| - currentLen, 0);
        contents := CopyWithin(contents, endValue, previousLen, endValue + |s| - currentLen);
        GrowSplices(before, startValue, endValue, s);
      }
      contents := CopyFromSlice(contents, startValue, s);
    }

    /**
     * Replaces the envelope recipients by `newTo` and rewrites the "to" header
     * as policy `d` says. The `Sender` policy reads the header senders, filling
     * their memo slot.
     */
    method SetRecipient(p: MailParser, newTo: AddrList, d: Disclosure)
      requires p.Sound()
      modifies this`contents, this`to, this`sender
      ensures to == newTo
      ensures d.Sender? ==> sender == Some(if old(sender).Some? then old(sender).value else HeaderAddrs(p, old(contents), FromNeedle))
      ensures !d.Sender? ==> sender == old(sender)
      ensures var hs := if old(sender).Some? then old(sender).value else HeaderAddrs(p, old(contents), FromNeedle);
        contents == match ToHeaderValue(p, d, newTo, hs, from)
          case None => old(contents)
          case Some(v) => SetHeaderResult(p, old(contents), ToName, v)
    {
      match d {
        case Open =>
          SetHeader(p, ToName, p.display(newTo));
        case Undisclosed(name) =>
          SetHeader(p, ToName, name + EmptyAngles);
        case Keep =>
        case Sender(name) =>
          var hs := GetSender(p);
          var first := FirstAddr(hs);
          if first.None? {
            first := FirstAddr(from);
          }
          var addr := if first.Some? then first.value.addr else NoReply;
          SetHeader(p, ToName, name + OpenAngle + addr + CloseAngle);
      }
      to := newTo;
    }
  }

  /**
   * A kept value survives a rewrite of the header it came from: reading the
   * subject, then setting any header, then reading it again gives the first value.
   */
  method SubjectKeptAcrossRewrite(m: UnparsedMail, p: MailParser, name: Bytes, s: Bytes) returns (before: Bytes, after: Bytes)
    requires p.Sound()
    modifies m
    ensures before == after
    ensures old(m.subject).None? ==> before == HeaderValue(p, old(m.contents), SubjectNeedle)
  {
    before := m.GetSubject(p);
    m.SetHeader(p, name, s);
    after := m.GetSubject(p);
  }
}
