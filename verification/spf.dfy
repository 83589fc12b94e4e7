/**
  The SPF half of the authenticity decision (`message_has_valid_spf`): the address
  literal of the topmost `Received` header is checked with SPF against the sender,
  and only a result of exactly `pass` authenticates.
 */
module SpfCheck {
  import opened Wrappers
  import opened Mail
  import opened ReceivedHeader

  /** The one SPF result the source accepts: the string `pass`, exactly. */
  predicate IsPass(reply: SpfReply) {
    reply.Answer? && reply.result == "pass"
  }

  /** The topmost header yields an address whose SPF check passes for the sender. */
  ghost predicate SpfVouches(sender: string, received: seq<string>, spf: (string, string) -> SpfReply) {
    |received| > 0 && exists m :: Reported(received[0], m) && IsPass(spf(Group(received[0], m), sender))
  }

  /** The topmost header yields an address whose SPF check raises. */
  ghost predicate SpfEscapes(sender: string, received: seq<string>, spf: (string, string) -> SpfReply) {
    |received| > 0 && exists m :: Reported(received[0], m) && spf(Group(received[0], m), sender).SpfRaised?
  }

  /** `spf.query(ip, sender, None).check()` and the comparison of its result with `pass`. */
  function QueryAddress(ip: string, sender: string, spf: (string, string) -> SpfReply): (r: Run<bool>)
    ensures r.trace == [SpfQuery(ip, sender)] && Undecided(r.trace)
    ensures r.result == Success(true) <==> IsPass(spf(ip, sender))
    ensures r.result.Failure? <==> spf(ip, sender).SpfRaised?
    ensures r.result.Failure? ==> r.result.error.SpfFailure?
  {
    match spf(ip, sender)
    case SpfRaised(x) => Run(Failure(SpfFailure(x)), [SpfQuery(ip, sender)])
    case Answer(res, _, _) => Run(Success(res == "pass"), [SpfQuery(ip, sender)])
  }

  /**
    `message_has_valid_spf`: false without a `Received` header or when the topmost one
    does not match the pattern, in both cases without querying SPF; otherwise one
    query with the header's address literal, and true exactly when its result is `pass`.
   */
  function MessageHasValidSpf(sender: string, received: seq<string>, spf: (string, string) -> SpfReply): (r: Run<bool>)
    ensures |received| == 0 ==> r == Run(Success(false), [])
    ensures r.result == Success(true) <==> SpfVouches(sender, received, spf)
    ensures r.result.Failure? <==> SpfEscapes(sender, received, spf)
    ensures r.result.Failure? ==> r.result.error.SpfFailure?
    ensures Undecided(r.trace)
  {
    if |received| == 0 then Run(Success(false), [])
    else
      var h := received[0];
      match ReceivedAddress(h)
      case None => Run(Success(false), [])
      case Some(ip) =>
        var m := Search(h).value;
        AddressIsReported(h, m);
        QueryAddress(ip, sender, spf)
  }

  /**
    The only effect of the SPF check is the SPF query itself: nothing at all when there
    is no `Received` header or the topmost one does not match the pattern, and
    otherwise one query, with the sender and the header's address, which is non-empty,
    holds no `]`, and stands right before `])` in the header. Nothing is logged.
   */
  lemma SpfQueriedOnlyOnMatch(sender: string, received: seq<string>, spf: (string, string) -> SpfReply)
    ensures MessageHasValidSpf(sender, received, spf).trace
         == if |received| == 0 then []
            else match ReceivedAddress(received[0])
                 case None => []
                 case Some(ip) => [SpfQuery(ip, sender)]
    ensures var t := MessageHasValidSpf(sender, received, spf).trace;
      && (t == [] <==> |received| == 0 || forall m :: !IsMatch(received[0], m))
      && (t != [] ==>
            && |received| > 0 && |t| == 1
            && t[0].SpfQuery? && t[0].sender == sender
            && |t[0].ip| > 0 && ']' !in t[0].ip
            && (exists k :: ClosedAt(received[0], t[0].ip, k)))
  {
  }

  /** Only the topmost `Received` header is read: the headers below it never change the outcome. */
  lemma OnlyTopHeaderCounts(sender: string, top: string, below: seq<string>, below': seq<string>,
                            spf: (string, string) -> SpfReply)
    ensures MessageHasValidSpf(sender, [top] + below, spf) == MessageHasValidSpf(sender, [top] + below', spf)
  {
    assert ([top] + below)[0] == top;
    assert ([top] + below')[0] == top;
  }

  /**
    With an address found, SPF is queried once with exactly that address and the
    sender, and every result other than `pass` (`fail`, `softfail`, `neutral`, `none`,
    `temperror`, `permerror`, or any other spelling, `Pass` included) gives false.
   */
  lemma OnlyPassAuthenticates(sender: string, received: seq<string>, spf: (string, string) -> SpfReply, ip: string)
    requires |received| > 0 && ReceivedAddress(received[0]) == Some(ip)
    requires spf(ip, sender).Answer?
    ensures MessageHasValidSpf(sender, received, spf)
         == Run(Success(spf(ip, sender).result == "pass"), [SpfQuery(ip, sender)])
  {
  }
}
