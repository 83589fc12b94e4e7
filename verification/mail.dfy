/**
  The data the bounce gate works on: the message, what the two verifiers report,
  and the observable effects of one evaluation (syslog records, SPF queries and
  the call to the list's original bounce handler), in the order they happen.
 */
module Mail {
  import opened Wrappers

  /**
    The parts of a Mailman message the gate reads: `get_sender()`, the values of
    `get_all('Received')` in header order (topmost first), and `get('message-id')`.
   */
  datatype Message = Message(sender: string, received: seq<string>, messageId: Option<string>)

  /** The `i=` (signing identity) and `d=` (signing domain) tags of a DKIM-Signature, section 3.5 of RFC 6376. */
  datatype Tags = Tags(identity: Option<string>, domain: Option<string>)

  /**
    What `d.verify()` did on the serialized message: returned a false value, raised a
    `DKIMException`, raised some other `Exception`, or returned true, leaving the
    verified signature's tags in `d.signature_fields`.
   */
  datatype DkimOutcome =
    | Unverified
    | DkimRaised(detail: string)
    | OtherRaised(detail: string)
    | Verified(tags: Tags)

  /**
    What `spf.query(ip, sender, None).check()` gave: the triple (result, code,
    explanation), or an exception, which nothing in the gate catches. Results are the
    lower-case names of section 2.6 of RFC 7208 (`pass`, `fail`, `softfail`, ...).
   */
  datatype SpfReply =
    | Answer(result: string, code: int, explanation: string)
    | SpfRaised(detail: string)

  /** The two foreign verifiers: the DKIM outcome for this message, and the SPF check as a function of (ip, sender). */
  datatype Verifiers = Verifiers(dkim: DkimOutcome, spf: (string, string) -> SpfReply)

  /** An error that escapes the gate uncaught. */
  datatype Escape =
    | SenderWithoutAt      // IndexError: `sender.split('@', 2)[1]` on a sender with no `@`
    | MissingDomainTag     // AttributeError: `.lower()` on the absent `d=` tag
    | SpfFailure(detail: string)

  /** The payload of a syslog record. */
  datatype LogEntry =
    | DkimExceptionLogged(detail: string)
    | ExceptionLogged(detail: string)
    | BounceSuppressed(messageId: string, sender: string)

  const ErrorLog: string := "error"
  const VetteLog: string := "vette"
  const NoMessageId: string := "n/a"

  /** An observable effect of evaluating a bounce. */
  datatype Effect =
    | Syslog(category: string, entry: LogEntry)
    | SpfQuery(ip: string, sender: string)          // the HELO identity is always None
    | OriginalBounce(msg: Message, msgdata: map<string, string>, err: Option<string>)

  /** The result of an evaluation (a value or an escaping error) with the effects it had. */
  datatype Run<T> = Run(result: Result<T, Escape>, trace: seq<Effect>)

  /** The gate's two terminal states for a bounce. */
  datatype Disposition = Forwarded | Suppressed

  /** A suppression record in the `vette` log. */
  predicate IsVetteRecord(e: Effect) {
    e.Syslog? && e.category == VetteLog
  }

  /** A trace that neither forwards a bounce nor records a suppression. */
  predicate Undecided(trace: seq<Effect>) {
    forall k :: 0 <= k < |trace| ==> !trace[k].OriginalBounce? && !IsVetteRecord(trace[k])
  }

  lemma UndecidedAppend(a: seq<Effect>, b: seq<Effect>)
    requires Undecided(a) && Undecided(b)
    ensures Undecided(a + b)
  {
    assert forall k :: |a| <= k < |a + b| ==> (a + b)[k] == b[k - |a|];
  }

  /** A trace that queries SPF nowhere. */
  predicate NoSpfQuery(trace: seq<Effect>) {
    forall k :: 0 <= k < |trace| ==> !trace[k].SpfQuery?
  }
}
