/**
  The authenticity decision (`sender_is_authentic`) and the bounce gate
  (`safe_bounce_message`) that the list's bounce handler is replaced with: a bounce
  to an authenticated sender goes to the original handler unchanged; any other is
  dropped, leaving one record in the `vette` log.
 */
module BounceGate {
  import opened Wrappers
  import opened Strings
  import opened Mail
  import opened ReceivedHeader
  import opened DkimCheck
  import opened SpfCheck

  /** The sender is authentic: DKIM vouches for it, or DKIM neither vouches nor raises and SPF vouches. */
  ghost predicate Authentic(sender: string, msg: Message, v: Verifiers) {
    || DkimVouches(sender, v.dkim)
    || (!DkimEscapes(sender, v.dkim) && SpfVouches(sender, msg.received, v.spf))
  }

  /** Deciding raises: DKIM raises, or it gives false and the SPF check raises. */
  ghost predicate Raises(sender: string, msg: Message, v: Verifiers) {
    || DkimEscapes(sender, v.dkim)
    || (!DkimVouches(sender, v.dkim) && SpfEscapes(sender, msg.received, v.spf))
  }

  /**
    `sender_is_authentic`: DKIM, then SPF only when DKIM gave false. The verdict is
    true exactly for authentic senders, an error escapes from whichever check raised,
    SPF is never queried once DKIM has decided, and nothing is forwarded or suppressed.
   */
  function SenderIsAuthentic(sender: string, msg: Message, v: Verifiers): (r: Run<bool>)
    ensures r.result == Success(true) <==> Authentic(sender, msg, v)
    ensures r.result.Failure? <==> Raises(sender, msg, v)
    ensures DkimVouches(sender, v.dkim) || DkimEscapes(sender, v.dkim) ==> NoSpfQuery(r.trace)
    ensures Undecided(r.trace)
  {
    var dkim := MessageHasValidDkim(sender, v.dkim);
    if dkim.result != Success(false) then dkim
    else
      var spf := MessageHasValidSpf(sender, msg.received, v.spf);
      UndecidedAppend(dkim.trace, spf.trace);
      Run(spf.result, dkim.trace + spf.trace)
  }

  /** The verdict is Python's `dkim or spf` of the two checks, with the effects of the checks that ran, in order. */
  lemma AuthenticIsShortCircuitOr(sender: string, msg: Message, v: Verifiers)
    ensures var d := MessageHasValidDkim(sender, v.dkim);
            var s := MessageHasValidSpf(sender, msg.received, v.spf);
            && (d.result == Success(true) ==> SenderIsAuthentic(sender, msg, v) == d)
            && (d.result.Failure? ==> SenderIsAuthentic(sender, msg, v) == d)
            && (d.result == Success(false) ==>
                  SenderIsAuthentic(sender, msg, v) == Run(s.result, d.trace + s.trace))
  {
  }

  /** The audit record of a suppressed bounce: its message-id, or `n/a` without one, and the sender. */
  function SuppressionRecord(msg: Message): (e: Effect)
    ensures IsVetteRecord(e) && e.entry.BounceSuppressed?
    ensures e.entry.sender == msg.sender
    ensures msg.messageId.None? ==> e.entry.messageId == NoMessageId
    ensures msg.messageId.Some? ==> e.entry.messageId == msg.messageId.value
  {
    Syslog(VetteLog, BounceSuppressed(msg.messageId.GetOr(NoMessageId), msg.sender))
  }

  /**
    `safe_bounce_message`: the bounce goes to the original handler, with the same
    message, metadata and error, exactly when the sender is authentic; otherwise it is
    suppressed with one `vette` record and no forwarding; an error that escapes the
    decision escapes here too, before either happens.
   */
  function SafeBounceMessage(msg: Message, msgdata: map<string, string>, e: Option<string>, v: Verifiers)
    : (r: Run<Disposition>)
    ensures r.result == Success(Forwarded) <==> Authentic(msg.sender, msg, v)
    ensures r.result.Failure? <==> Raises(msg.sender, msg, v)
    ensures r.result.Success? ==> |r.trace| >= 1 && Undecided(r.trace[..|r.trace| - 1])
    ensures r.result == Success(Forwarded) ==> r.trace[|r.trace| - 1] == OriginalBounce(msg, msgdata, e)
    ensures r.result == Success(Suppressed) ==> r.trace[|r.trace| - 1] == SuppressionRecord(msg)
    ensures r.result.Failure? ==> Undecided(r.trace)
  {
    var sender := msg.sender;
    var auth := SenderIsAuthentic(sender, msg, v);
    match auth.result
    case Failure(x) => Run(Failure(x), auth.trace)
    case Success(ok) =>
      var last := if ok then OriginalBounce(msg, msgdata, e) else SuppressionRecord(msg);
      assert (auth.trace + [last])[..|auth.trace|] == auth.trace;
      Run(Success(if ok then Forwarded else Suppressed), auth.trace + [last])
  }

  /** A signature whose `i=` equals the sender up to case forwards the bounce, whatever SPF would say, without asking it. */
  lemma IdentityMatchForwards(msg: Message, msgdata: map<string, string>, e: Option<string>, v: Verifiers, id: string)
    requires v.dkim.Verified? && v.dkim.tags.identity == Some(id)
    requires EqualsIgnoreCase(msg.sender, id)
    ensures SafeBounceMessage(msg, msgdata, e, v).result == Success(Forwarded)
    ensures NoSpfQuery(SenderIsAuthentic(msg.sender, msg, v).trace)
  {
  }

  /** Without `i=`, a `d=` equal up to case to the sender's domain part forwards the bounce. */
  lemma DomainMatchForwards(msg: Message, msgdata: map<string, string>, e: Option<string>, v: Verifiers, dom: string)
    requires v.dkim.Verified? && v.dkim.tags.identity.None? && v.dkim.tags.domain == Some(dom)
    requires exists d :: IsDomainPart(msg.sender, d) && EqualsIgnoreCase(dom, d)
    ensures SafeBounceMessage(msg, msgdata, e, v).result == Success(Forwarded)
  {
    var d :| IsDomainPart(msg.sender, d) && EqualsIgnoreCase(dom, d);
    var i: nat :| DomainPartAt(msg.sender, i, d);
    assert msg.sender[i] == '@';
  }

  /** A DKIM signature that does not verify, with no `Received` header to fall back on, suppresses the bounce. */
  lemma NoEvidenceSuppresses(msg: Message, msgdata: map<string, string>, e: Option<string>, v: Verifiers)
    requires !v.dkim.Verified? && msg.received == []
    ensures SafeBounceMessage(msg, msgdata, e, v).result == Success(Suppressed)
    ensures SafeBounceMessage(msg, msgdata, e, v).trace[|SafeBounceMessage(msg, msgdata, e, v).trace| - 1]
         == SuppressionRecord(msg)
  {
  }

  /** When DKIM plainly fails (no signature verifies, nothing raised), the decision and its effects are SPF's alone. */
  lemma UnverifiedDefersToSpf(msg: Message, spf: (string, string) -> SpfReply)
    ensures SenderIsAuthentic(msg.sender, msg, Verifiers(Unverified, spf)) == MessageHasValidSpf(msg.sender, msg.received, spf)
  {
    var s := MessageHasValidSpf(msg.sender, msg.received, spf);
    var d := MessageHasValidDkim(msg.sender, Unverified);
    assert d == Run(Success(false), []);
    AuthenticIsShortCircuitOr(msg.sender, msg, Verifiers(Unverified, spf));
    assert d.trace + s.trace == s.trace;
  }

  /** A decision of false, with whatever effects it had, is followed by exactly the audit record. */
  lemma FalseDecisionSuppresses(msg: Message, msgdata: map<string, string>, e: Option<string>, v: Verifiers,
                                t: seq<Effect>)
    requires SenderIsAuthentic(msg.sender, msg, v) == Run(Success(false), t)
    ensures SafeBounceMessage(msg, msgdata, e, v) == Run(Success(Suppressed), t + [SuppressionRecord(msg)])
  {
  }

  /**
    A bounce whose DKIM check plainly failed (no exception), and whose topmost header
    yields an address SPF answers with anything but `pass`, is suppressed: SPF is asked
    once about that address, then the audit record is written.
   */
  lemma SpfRejectionSuppresses(msg: Message, msgdata: map<string, string>, e: Option<string>,
                               spf: (string, string) -> SpfReply, ip: string)
    requires |msg.received| > 0 && ReceivedAddress(msg.received[0]) == Some(ip)
    requires spf(ip, msg.sender).Answer? && spf(ip, msg.sender).result != "pass"
    ensures SafeBounceMessage(msg, msgdata, e, Verifiers(Unverified, spf))
         == Run(Success(Suppressed), [SpfQuery(ip, msg.sender), SuppressionRecord(msg)])
  {
    var v := Verifiers(Unverified, spf);
    var q := [SpfQuery(ip, msg.sender)];
    OnlyPassAuthenticates(msg.sender, msg.received, spf, ip);
    assert MessageHasValidSpf(msg.sender, msg.received, spf) == Run(Success(false), q);
    UnverifiedDefersToSpf(msg, spf);
    FalseDecisionSuppresses(msg, msgdata, e, v, q);
  }

  /**
    A bounce to `eve@example.com` with no verifiable DKIM signature, relayed by
    `from mx.attacker.net ([203.0.113.5])`, for which SPF answers `fail`: SPF is asked
    about 203.0.113.5 and the bounce is suppressed with its audit record.
   */
  lemma SpoofedRelayIsSuppressed(msgdata: map<string, string>, e: Option<string>, id: Option<string>,
                                 spf: (string, string) -> SpfReply)
    requires spf("203.0.113.5", "eve@example.com").Answer?
    requires spf("203.0.113.5", "eve@example.com").result == "fail"
    ensures var msg := Message("eve@example.com", ["from" + " " + "mx.attacker.net" + " ([" + "203.0.113.5" + "])"], id);
            SafeBounceMessage(msg, msgdata, e, Verifiers(Unverified, spf))
              == Run(Success(Suppressed), [SpfQuery("203.0.113.5", "eve@example.com"), SuppressionRecord(msg)])
  {
    var host, ip := "mx.attacker.net", "203.0.113.5";
    assert NoSpace(host) && NoSpace(ip) && ']' !in ip;
    PlainTraceYieldsAddress("from", host, ip);
    var msg := Message("eve@example.com", ["from" + " " + host + " ([" + ip + "])"], id);
    SpfRejectionSuppresses(msg, msgdata, e, spf, ip);
  }

  /** `alice@example.com` with a verified signature whose `i=` is `Alice@Example.COM`: forwarded, SPF never asked. */
  lemma IdentityScenario(received: seq<string>, id: Option<string>, msgdata: map<string, string>, e: Option<string>,
                         spf: (string, string) -> SpfReply)
    ensures var msg := Message("alice@example.com", received, id);
            var v := Verifiers(Verified(Tags(Some("Alice@Example.COM"), None)), spf);
            && SafeBounceMessage(msg, msgdata, e, v).result == Success(Forwarded)
            && NoSpfQuery(SenderIsAuthentic(msg.sender, msg, v).trace)
  {
    var msg := Message("alice@example.com", received, id);
    var v := Verifiers(Verified(Tags(Some("Alice@Example.COM"), None)), spf);
    assert EqualsIgnoreCase(msg.sender, "Alice@Example.COM");
    IdentityMatchForwards(msg, msgdata, e, v, "Alice@Example.COM");
  }

  /** `bob@example.org` with a verified signature carrying `d=example.org` and no `i=`: forwarded. */
  lemma DomainScenario(received: seq<string>, id: Option<string>, msgdata: map<string, string>, e: Option<string>,
                       spf: (string, string) -> SpfReply)
    ensures SafeBounceMessage(Message("bob" + "@" + "example.org", received, id), msgdata, e,
                              Verifiers(Verified(Tags(None, Some("example.org"))), spf)).result
         == Success(Forwarded)
  {
    var sender := "bob" + "@" + "example.org";
    DomainPartOfAddress("bob", "example.org");
    assert IsDomainPart(sender, "example.org");
    DomainMatchForwards(Message(sender, received, id), msgdata, e,
                        Verifiers(Verified(Tags(None, Some("example.org"))), spf), "example.org");
  }
}
