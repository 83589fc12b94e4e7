# Bounce authentication gate for Mailman, modelled in Dafny

Mailman can send bounce notices back to whoever a message claims came from. When
that sender is forged, the notices become backscatter. The `mailman/extend.py`
module stops this. It replaces a list's `BounceMessage` with `safe_bounce_message`,
which forwards a bounce to the original handler only when the sender is authentic.
A sender is authentic when either of two checks vouches for it:

- **DKIM** (`message_has_valid_dkim`). A signature that verifies vouches for the
  sender in one of two ways. If it carries an `i=` tag, that tag must equal the
  sender, ignoring ASCII case. Otherwise its `d=` tag must equal the sender's domain
  part, taken as `sender.split('@', 2)[1]`. A verification that fails or raises
  counts as false; when it raised, the exception goes to the `error` log.
- **SPF** (`message_has_valid_spf`). Only the topmost `Received` header is read. It
  is searched, unanchored and ignoring case, for
  `\s*from\s+[^\s]+\s+\(([^\s]+\s+)?\[([^]]+)\]\)`. The bracketed address in group 2
  is checked with SPF against the sender, and only the result `pass` counts.

`sender_is_authentic` is `dkim or spf`, so SPF is not asked once DKIM says true. An
unauthenticated bounce is dropped, and one `vette` record is written with the
message-id (or `n/a`) and the sender.

The model is pure functions over immutable data. Each evaluation returns a `Run`.
A `Run` holds either a value or the error that escapes the source uncaught. It also
holds the ordered trace of what the evaluation did: syslog records, SPF queries, and
the call to the original handler.

The two verifiers are inputs:

- the DKIM library's outcome for the message, as a `DkimOutcome`;
- the SPF check, as a function from (address, sender) to a reply.

The modules are:

- `Wrappers`: Option and Result.
- `Strings`: the Python 2 string primitives used, namely ASCII `lower()`, `split`
  with a limit, and the `\s` class.
- `ReceivedHeader`: the regular-expression search. It has three parts:
  - `IsMatch` is a declarative description of every stretch of a header the
    pattern matches.
  - `Reported` is the one match a backtracking `re.search` reports.
  - `Search` is a deterministic scanner, proved to return exactly that match.
- `Mail`: the message, the verifier outcomes, errors, log entries and effects.
- `DkimCheck`, `SpfCheck`, `BounceGate`: the four functions of the module.

Errors and edge cases, as the code handles them:

- **Sender without `@`.** Such a sender is not simply counted as unauthenticated.
  `split('@', 2)[1]` raises `IndexError` outside the `try`, so the exception escapes
  `safe_bounce_message`. No bounce is forwarded and no `vette` record is written.
  The model returns `Failure(SenderWithoutAt)`.
- **Neither `i=` nor `d=`.** The code calls `.lower()` on `None`, which raises
  `AttributeError`, and that escapes too. The model returns `Failure(MissingDomainTag)`.
  The split runs first, so a sender with no `@` reports that error instead.
- **Case of the SPF result.** The code compares the result with `'pass'` exactly, the
  lower-case spelling the SPF library returns. `Pass`, or any other spelling, gives false.
- **Exceptions from SPF.** The SPF call is also outside any `try`. If the SPF library
  raises, that exception escapes too: `SpfFailure`.
- **When DKIM logs.** `d.verify()` returning false writes no log record. Only the two
  `except` branches log.

The source runs under Python 2, which has these effects on the model:

- `lower()` changes only ASCII letters.
- `\s` means exactly space, `\t`, `\n`, `\v`, `\f` and `\r`.
- `IGNORECASE` folds only ASCII letters.

## Model

| member | source | states |
|---|---|---|
| Strings.Lower | mailman/extend.py:52 | Python 2 `str.lower()`: ASCII-only lower-casing that keeps the length and changes each character on its own |
| Strings.LowerEqualIff | mailman/extend.py:52 | `a.lower() == b.lower()` holds exactly when `a` and `b` are equal ignoring ASCII case, position by position |
| Strings.Split | mailman/extend.py:55 | `s.split(sep, n)` gives 1 to n+1 parts that join back to `s`; no part but the last holds `sep`, and the last holds one only when all n cuts were made |
| Strings.SplitUnique | mailman/extend.py:55 | those properties determine the split: two part lists that both satisfy them are equal |
| ReceivedHeader.Span | mailman/extend.py:62 | a greedy run of `\s`, `[^\s]` or `[^]]` characters ends at the first character outside the class; `\s` is `Strings.IsSpace`: space, `\t`, `\n`, `\v`, `\f`, `\r` |
| ReceivedHeader.ShapeIsForced | mailman/extend.py:62 | in any match, every piece's position is the end of a maximal run, so backtracking never gives characters back |
| ReceivedHeader.ShapeUnique | mailman/extend.py:62 | two matches with the same start that agree on whether the optional group took part are identical |
| ReceivedHeader.ReportedUnique | mailman/extend.py:62-63 | at most one match is the leftmost-then-preferred match that `re.search` reports |
| ReceivedHeader.AddressFrom | mailman/extend.py:62 | the `\[([^]]+)\]\)` tail is found at a position exactly when some `]` index completes it there |
| ReceivedHeader.TailFrom | mailman/extend.py:62 | what the tail matcher finds after `(` really is a `([^\s]+\s+)?\[([^]]+)\]\)` tail there |
| ReceivedHeader.TailFromComplete | mailman/extend.py:62 | whenever some tail follows `(`, the tail matcher finds one; it uses the optional group whenever some tail does |
| ReceivedHeader.MatchAt | mailman/extend.py:62-63 | what the matcher finds at one start position is a genuine match starting there |
| ReceivedHeader.MatchAtComplete | mailman/extend.py:62-63 | at a start position where any match exists, MatchAt finds one; it leaves out the optional group only when no match there uses it |
| ReceivedHeader.SearchFrom | mailman/extend.py:63 | scanning from p returns only matches starting at or after p |
| ReceivedHeader.SearchFromLeftmost | mailman/extend.py:63 | scanning from p returns the leftmost match at or after p, with the optional group preferred; it returns nothing only when no match starts there |
| ReceivedHeader.Search | mailman/extend.py:62-65 | `re.search` returns the reported match, and returns None exactly when no stretch of the header matches |
| ReceivedHeader.GroupShape | mailman/extend.py:66 | group 2 of any match is non-empty, contains no `]`, and is immediately followed by `])` |
| ReceivedHeader.ReceivedAddress | mailman/extend.py:62-66 | `match.group(2)`: None exactly when nothing matches; otherwise a non-empty, `]`-free address followed by `])`, the group of the reported match |
| ReceivedHeader.AddressIsReported | mailman/extend.py:63-66 | the address extracted is the group of the unique reported match |
| ReceivedHeader.SearchIsUnanchored | mailman/extend.py:62-63 | any text put in front of a header that yields an address still leaves it yielding one |
| ReceivedHeader.PlainTraceMatches | mailman/extend.py:62 | `from HOST ([ADDRESS])` matches as a whole, without the optional group, and its group 2 is ADDRESS |
| ReceivedHeader.PlainTraceUntagged | mailman/extend.py:62 | no match of `from HOST ([ADDRESS])` uses the optional group, because the token after `(` runs to the end of the line |
| ReceivedHeader.PlainTraceYieldsAddress | mailman/extend.py:62-66 | `from HOST ([ADDRESS])`, with `from` in any case, yields exactly ADDRESS |
| DkimCheck.DomainPartUnique | mailman/extend.py:55 | a sender has at most one domain part: the text between its first `@` and the next `@` or the end |
| DkimCheck.SecondPartIsDomain | mailman/extend.py:55 | the second part of `split('@', 2)` is the sender's domain part |
| DkimCheck.SenderDomain | mailman/extend.py:55 | fails with IndexError exactly when the sender has no `@`; otherwise returns the domain part |
| DkimCheck.SenderDomainIff | mailman/extend.py:55 | SenderDomain returns d exactly when d is the sender's domain part |
| DkimCheck.DomainComparison | mailman/extend.py:54-56 | comparing lower-cased `d=` with the lower-cased split part is case-insensitive equality with the domain part |
| DkimCheck.MessageHasValidDkim | mailman/extend.py:38-56 | fail-closed: false (never true) when verify returns false or raises; one `error` record per exception kind. True exactly when the signature vouches via `i=`, or via `d=` when `i=` is absent. Escapes exactly when `i=` is absent and the sender has no `@` (IndexError) or `d=` is missing (AttributeError) |
| DkimCheck.IdentityIgnoresDomain | mailman/extend.py:50-52 | with `i=` present, the `d=` tag never changes the outcome |
| SpfCheck.QueryAddress | mailman/extend.py:67-69 | one SPF query with (address, sender); true exactly on result `pass`; an SPF exception escapes |
| SpfCheck.MessageHasValidSpf | mailman/extend.py:58-69 | false with no `Received` header; true exactly when the reported match's address passes SPF; escapes exactly when that SPF check raises; its effects never forward or write a `vette` record (SpfCheck.SpfQueriedOnlyOnMatch pins them exactly) |
| SpfCheck.SpfQueriedOnlyOnMatch | mailman/extend.py:59-68 | the effects are exactly one SPF query with the header's address and the sender, or none when there is no header or no match; nothing is logged; the address queried is non-empty, `]`-free and followed by `])` in the topmost header |
| SpfCheck.OnlyTopHeaderCounts | mailman/extend.py:59-63 | headers below the topmost never change the outcome or the effects |
| SpfCheck.OnlyPassAuthenticates | mailman/extend.py:67-69 | with an address found, the outcome is one query and true exactly when the result string is `pass`; every other code gives false |
| BounceGate.SenderIsAuthentic | mailman/extend.py:71-72 | true exactly when DKIM vouches, or DKIM neither vouches nor raises and SPF vouches; errors escape from whichever check raised; no SPF query once DKIM has decided |
| BounceGate.AuthenticIsShortCircuitOr | mailman/extend.py:72 | the verdict and effects are those of Python's short-circuit `dkim or spf` |
| BounceGate.UnverifiedDefersToSpf | mailman/extend.py:71-72 | when no DKIM signature verifies and nothing raised, the decision and its effects are exactly those of the SPF check |
| BounceGate.SuppressionRecord | mailman/extend.py:79 | the audit record is a `vette` entry with the message-id (`n/a` when absent) and the sender |
| BounceGate.SafeBounceMessage | mailman/extend.py:74-79 | forwards (msg, msgdata, e) unchanged, as its last effect, exactly when authentic; otherwise ends with the one `vette` record; nothing before the last effect forwards or suppresses; an escaping error does neither |
| BounceGate.FalseDecisionSuppresses | mailman/extend.py:76-79 | a decision of false is followed by exactly one more effect, the audit record, and nothing is forwarded |
| BounceGate.IdentityMatchForwards | mailman/extend.py:74-77 | a verified `i=` equal to the sender ignoring case forwards the bounce without asking SPF |
| BounceGate.DomainMatchForwards | mailman/extend.py:74-77 | with no `i=`, a verified `d=` equal to the sender's domain part ignoring case forwards the bounce |
| BounceGate.NoEvidenceSuppresses | mailman/extend.py:74-79 | a failed DKIM check with no `Received` header suppresses the bounce with the audit record |
| BounceGate.SpfRejectionSuppresses | mailman/extend.py:74-79 | a plain DKIM failure plus a non-`pass` SPF result gives exactly one query and then the audit record |
| BounceGate.SpoofedRelayIsSuppressed | mailman/extend.py:74-79 | `eve@example.com` via `from mx.attacker.net ([203.0.113.5])` with SPF `fail`: 203.0.113.5 is queried and the bounce is suppressed |
| BounceGate.IdentityScenario | mailman/extend.py:50-52 | `alice@example.com` signed with `i=Alice@Example.COM` is forwarded and SPF is never asked |
| BounceGate.DomainScenario | mailman/extend.py:53-56 | `bob@example.org` signed with `d=example.org` and no `i=` is forwarded |

## Left out

- DKIM cryptography: `dkim.DKIM(msg.as_string())` and `d.verify()` (mailman/extend.py:39-41) belong to a foreign library. Their outcome is the `DkimOutcome` input. An exception from the `DKIM(...)` constructor itself, which sits before the `try`, is not modelled.
- SPF evaluation (mailman/extend.py:67-68) does DNS lookups in a foreign library. It is the function-valued input `Verifiers.spf`. The HELO argument, always `None`, is left implicit in `SpfQuery`.
- Exceptions derived from `BaseException` but not from `Exception` (for example `KeyboardInterrupt` during `d.verify()`) escape the source's `except Exception`. They are not modelled.
- Syslog (mailman/extend.py:44, 47, 79) is a `Syslog` effect holding the category and a structured entry. The human-readable format strings are not reproduced.
- `extend` (mailman/extend.py:81-83) patches the handler at run time with `MethodType`. The `sys.path` line (mailman/extend.py:28-29) adjusts imports. Both are plumbing with no decision logic.
- Mailman message internals (`get_sender`, `get_all('Received')`, `get('message-id', 'n/a')`) are fields of `Message`. The header values are taken as the strings the email package returns. `msgdata` is a `map<string, string>`, and the bounce error `e` is an `Option<string>`.
- Python 2 byte strings are modelled as Dafny strings. Characters outside ASCII are left alone by `lower()` and are not `\s`, as in the byte-string semantics.
