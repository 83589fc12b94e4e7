/**
  The DKIM half of the authenticity decision (`message_has_valid_dkim`): the library's
  verdict is taken as given, fails closed when verification fails or raises, and a
  verified signature vouches for the sender through its `i=` tag when it has one and
  through its `d=` tag otherwise.
 */
module DkimCheck {
  import opened Wrappers
  import opened Strings
  import opened Mail

  /**
    `d` is the domain part of `s` as `s.split('@', 2)[1]` takes it: `s[i]` is the
    first `@`, and `d` runs from just after it to the next `@` or to the end.
   */
  predicate DomainPartAt(s: string, i: nat, d: string) {
    && i + 1 + |d| <= |s|
    && s[i] == '@' && '@' !in s[..i]
    && s[i + 1..i + 1 + |d|] == d && '@' !in d
    && (i + 1 + |d| == |s| || s[i + 1 + |d|] == '@')
  }

  ghost predicate IsDomainPart(s: string, d: string) {
    exists i :: DomainPartAt(s, i, d)
  }

  /** A sender has at most one domain part. */
  lemma DomainPartUnique(s: string, i: nat, d: string, j: nat, e: string)
    requires DomainPartAt(s, i, d) && DomainPartAt(s, j, e)
    ensures i == j && d == e
  {
  }

  /** In `local@domain`, with no other `@`, the domain part is `domain`. */
  lemma DomainPartOfAddress(local: string, domain: string)
    requires '@' !in local && '@' !in domain
    ensures DomainPartAt(local + "@" + domain, |local|, domain)
  {
    var s := local + "@" + domain;
    assert s[..|local|] == local;
    assert s[|local| + 1..] == domain;
  }

  /** The second of the parts `split('@', 2)` returns is the domain part. */
  lemma SecondPartIsDomain(s: string, parts: seq<string>)
    requires IsSplit(s, '@', 2, parts) && |parts| >= 2
    ensures '@' in s
    ensures DomainPartAt(s, IndexOf(s, '@'), parts[1])
  {
    FirstCut(s, '@', parts);
    var i := IndexOf(s, '@');
    var tail := parts[1..];
    if |parts| == 3 {
      assert tail == [parts[1]] + [parts[2]];
      JoinCons(parts[1], [parts[2]], '@');
      assert s[i + 1..] == parts[1] + ['@'] + parts[2];
    } else {
      assert tail == [parts[1]];
    }
  }

  /**
    `sender.split('@', 2)[1]`: the domain part of the sender, or the IndexError the
    source raises when the sender has no `@`.
   */
  function SenderDomain(sender: string): (r: Result<string, Escape>)
    ensures r.Failure? <==> '@' !in sender
    ensures r.Failure? ==> r.error == SenderWithoutAt
    ensures r.Success? ==> DomainPartAt(sender, IndexOf(sender, '@'), r.value)
  {
    var parts := Split(sender, '@', 2);
    if |parts| < 2 then
      assert parts == [sender];
      Failure(SenderWithoutAt)
    else
      SecondPartIsDomain(sender, parts);
      Success(parts[1])
  }

  /** SenderDomain finds the domain part and nothing else. */
  lemma SenderDomainIff(s: string, d: string)
    ensures SenderDomain(s) == Success(d) <==> IsDomainPart(s, d)
  {
    if IsDomainPart(s, d) {
      var i: nat :| DomainPartAt(s, i, d);
      assert '@' in s by { assert s[i] == '@'; }
      DomainPartUnique(s, i, d, IndexOf(s, '@'), SenderDomain(s).value);
    }
  }

  /** What a verified signature vouches for: the whole sender when it has `i=`, else the sender's domain part. */
  ghost predicate SignatureVouches(sender: string, tags: Tags) {
    match tags.identity
    case Some(id) => EqualsIgnoreCase(sender, id)
    case None =>
      tags.domain.Some? && exists d :: IsDomainPart(sender, d) && EqualsIgnoreCase(tags.domain.value, d)
  }

  /** DKIM authenticates the sender. */
  ghost predicate DkimVouches(sender: string, outcome: DkimOutcome) {
    outcome.Verified? && SignatureVouches(sender, outcome.tags)
  }

  /**
    The DKIM check raises: the signature verified but has no `i=`, and either the
    sender has no `@` or the signature has no `d=`. Both happen outside the `try`.
   */
  predicate DkimEscapes(sender: string, outcome: DkimOutcome) {
    && outcome.Verified? && outcome.tags.identity.None?
    && ('@' !in sender || outcome.tags.domain.None?)
  }

  /** The comparison on the `d=` branch, once both the tag and the domain part exist. */
  lemma DomainComparison(sender: string, d: string, dom: string)
    requires SenderDomain(sender) == Success(dom)
    ensures (Lower(d) == Lower(dom)) <==> exists e :: IsDomainPart(sender, e) && EqualsIgnoreCase(d, e)
  {
    LowerEqualIff(d, dom);
    SenderDomainIff(sender, dom);
    forall e | IsDomainPart(sender, e)
      ensures e == dom
    {
      SenderDomainIff(sender, e);
    }
  }

  /**
    `message_has_valid_dkim`: a verification that fails or raises gives false (after a
    syslog record when it raised); a verified signature gives whether it vouches for
    the sender, or escapes with the error the source raises.
   */
  function MessageHasValidDkim(sender: string, outcome: DkimOutcome): (r: Run<bool>)
    ensures !outcome.Verified? ==> r.result == Success(false)
    ensures r.result == Success(true) <==> DkimVouches(sender, outcome)
    ensures r.result.Failure? <==> DkimEscapes(sender, outcome)
    ensures r.result.Failure? ==>
      r.result.error == (if '@' !in sender then SenderWithoutAt else MissingDomainTag)
    ensures outcome.DkimRaised? ==> r.trace == [Syslog(ErrorLog, DkimExceptionLogged(outcome.detail))]
    ensures outcome.OtherRaised? ==> r.trace == [Syslog(ErrorLog, ExceptionLogged(outcome.detail))]
    ensures !outcome.DkimRaised? && !outcome.OtherRaised? ==> r.trace == []
    ensures Undecided(r.trace) && NoSpfQuery(r.trace)
  {
    match outcome
    case Unverified => Run(Success(false), [])
    case DkimRaised(x) => Run(Success(false), [Syslog(ErrorLog, DkimExceptionLogged(x))])
    case OtherRaised(x) => Run(Success(false), [Syslog(ErrorLog, ExceptionLogged(x))])
    case Verified(tags) =>
      match tags.identity
      case Some(id) =>
        LowerEqualIff(sender, id);
        Run(Success(Lower(sender) == Lower(id)), [])
      case None =>
        match SenderDomain(sender)
        case Failure(e) => Run(Failure(e), [])
        case Success(dom) =>
          match tags.domain
          case None => Run(Failure(MissingDomainTag), [])
          case Some(d) =>
            DomainComparison(sender, d, dom);
            Run(Success(Lower(d) == Lower(dom)), [])
  }

  /** With an `i=` tag present the `d=` tag is never consulted. */
  lemma IdentityIgnoresDomain(sender: string, id: string, d1: Option<string>, d2: Option<string>)
    ensures MessageHasValidDkim(sender, Verified(Tags(Some(id), d1)))
         == MessageHasValidDkim(sender, Verified(Tags(Some(id), d2)))
  {
  }
}
