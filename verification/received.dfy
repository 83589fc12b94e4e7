/**
  The provenance parser of the SPF path: the topmost `Received` header is searched,
  unanchored and ignoring case, for

      \s*from\s+[^\s]+\s+\(([^\s]+\s+)?\[([^]]+)\]\)

  and group 2, the bracketed address literal of the trace syntax in section 4.4 of
  RFC 5321, is what gets checked against SPF.

  `IsMatch` says declaratively which stretches of a header the pattern matches;
  `Reported` picks the one match a backtracking `re.search` reports; `Search` is a
  deterministic scanner proved to return exactly that match.
 */
module ReceivedHeader {
  import opened Wrappers
  import opened Strings

  /** The character classes the pattern's repetitions range over. */
  datatype CharClass = Space | NonSpace | NotClose

  predicate InClass(c: char, k: CharClass) {
    match k
    case Space => IsSpace(c)
    case NonSpace => !IsSpace(c)
    case NotClose => c != ']'
  }

  /** Every character of h[i..j] is in class k. */
  predicate AllIn(h: string, i: nat, j: nat, k: CharClass)
    requires i <= j <= |h|
  {
    forall x :: i <= x < j ==> InClass(h[x], k)
  }

  const Keyword: string := "from"

  /**
    Where each piece of one match lies in the header. The match begins at `start`
    (the leading `\s*`), `from` sits at `keyword`, the host token is h[host..hostEnd],
    `(` is at `open`, the optional group's `[^\s]+` ends at `tag.value` when the group
    took part, `[` is at `bracket` and `]` at `close`.
   */
  datatype MatchShape = MatchShape(
    start: nat,
    keyword: nat,
    host: nat,
    hostEnd: nat,
    open: nat,
    tag: Option<nat>,
    bracket: nat,
    close: nat)

  /** `\[([^]]+)\]\)` matches at `bracket`, with `]` at `close`. */
  predicate AddressAt(h: string, bracket: nat, close: nat) {
    && bracket + 1 < close && close + 1 < |h|
    && h[bracket] == '['
    && AllIn(h, bracket + 1, close, NotClose)
    && h[close] == ']' && h[close + 1] == ')'
  }

  /** `\s*from\s+[^\s]+\s+\(` matches h[start..open + 1], `from` at `keyword` and the host token h[host..hostEnd]. */
  predicate HeadAt(h: string, start: nat, keyword: nat, host: nat, hostEnd: nat, open: nat) {
    && start <= keyword
    && keyword + 4 < host < hostEnd < open < |h|
    && AllIn(h, start, keyword, Space)
    && EqualsIgnoreCase(h[keyword..keyword + 4], Keyword)
    && AllIn(h, keyword + 4, host, Space)
    && AllIn(h, host, hostEnd, NonSpace)
    && AllIn(h, hostEnd, open, Space)
    && h[open] == '('
  }

  /**
    `([^\s]+\s+)?\[([^]]+)\]\)` matches from just after the `(` at `open`: the optional
    group, when it takes part, ends its `[^\s]+` at `tag.value`; `[` is at `bracket`.
   */
  predicate TailAt(h: string, open: nat, tag: Option<nat>, bracket: nat, close: nat) {
    && AddressAt(h, bracket, close)
    && match tag
       case None => bracket == open + 1
       case Some(t) =>
         && open + 1 < t < bracket
         && AllIn(h, open + 1, t, NonSpace)
         && AllIn(h, t, bracket, Space)
  }

  /** `m` describes a stretch of `h` that the pattern matches. */
  predicate IsMatch(h: string, m: MatchShape) {
    && HeadAt(h, m.start, m.keyword, m.host, m.hostEnd, m.open)
    && TailAt(h, m.open, m.tag, m.bracket, m.close)
  }

  /** Group 2 of the match: the text between `[` and `]`. */
  function Group(h: string, m: MatchShape): string
    requires IsMatch(h, m)
  {
    h[m.bracket + 1..m.close]
  }

  /**
    `m` is the match `re.search` reports: no match starts further left, and among the
    matches starting where `m` does, the optional group takes part if it can.
   */
  ghost predicate Reported(h: string, m: MatchShape) {
    && IsMatch(h, m)
    && forall m' :: IsMatch(h, m') ==>
         && m.start <= m'.start
         && (m'.start == m.start && m'.tag.Some? ==> m.tag.Some?)
  }

  /** `a` occurs in `h` at position k, immediately followed by `])`. */
  predicate ClosedAt(h: string, a: string, k: nat) {
    k + |a| + 2 <= |h| && h[k..k + |a|] == a && h[k + |a|] == ']' && h[k + |a| + 1] == ')'
  }

  /** The end of the longest run of class-k characters that starts at i. */
  function Span(h: string, i: nat, k: CharClass): (j: nat)
    requires i <= |h|
    ensures i <= j <= |h|
    ensures AllIn(h, i, j, k)
    ensures j == |h| || !InClass(h[j], k)
    decreases |h| - i
  {
    if i == |h| || !InClass(h[i], k) then i else Span(h, i + 1, k)
  }

  /** A run of class-k characters that no class-k character extends is the one Span finds. */
  lemma SpanForced(h: string, i: nat, j: nat, k: CharClass)
    requires i <= j <= |h| && AllIn(h, i, j, k)
    requires j == |h| || !InClass(h[j], k)
    ensures Span(h, i, k) == j
  {
  }

  /** The head's positions are the ends of maximal runs. */
  lemma HeadForced(h: string, start: nat, keyword: nat, host: nat, hostEnd: nat, open: nat)
    requires HeadAt(h, start, keyword, host, hostEnd, open)
    ensures keyword == Span(h, start, Space)
    ensures host == Span(h, keyword + 4, Space)
    ensures hostEnd == Span(h, host, NonSpace)
    ensures open == Span(h, hostEnd, Space)
  {
    var kw := h[keyword..keyword + 4];
    assert LowerChar(kw[0]) == 'f';
    assert !IsSpace(h[keyword]);
    SpanForced(h, start, keyword, Space);
    SpanForced(h, keyword + 4, host, Space);
    SpanForced(h, host, hostEnd, NonSpace);
    SpanForced(h, hostEnd, open, Space);
  }

  /** The tail's positions are the ends of maximal runs. */
  lemma TailForced(h: string, open: nat, tag: Option<nat>, bracket: nat, close: nat)
    requires TailAt(h, open, tag, bracket, close)
    ensures tag.Some? ==> tag.value == Span(h, open + 1, NonSpace)
    ensures tag.Some? ==> bracket == Span(h, tag.value, Space)
    ensures close == Span(h, bracket + 1, NotClose)
  {
    if tag.Some? {
      SpanForced(h, open + 1, tag.value, NonSpace);
      SpanForced(h, tag.value, bracket, Space);
    }
    SpanForced(h, bracket + 1, close, NotClose);
  }

  /**
    Greedy repetition never has to give characters back in this pattern: every run
    ends where the next piece's first character begins, and that character cannot
    continue the run. So each position of a match is the end of a maximal run.
   */
  lemma ShapeIsForced(h: string, m: MatchShape)
    requires IsMatch(h, m)
    ensures m.keyword == Span(h, m.start, Space)
    ensures m.host == Span(h, m.keyword + 4, Space)
    ensures m.hostEnd == Span(h, m.host, NonSpace)
    ensures m.open == Span(h, m.hostEnd, Space)
    ensures m.tag.Some? ==> m.tag.value == Span(h, m.open + 1, NonSpace)
    ensures m.tag.Some? ==> m.bracket == Span(h, m.tag.value, Space)
    ensures m.close == Span(h, m.bracket + 1, NotClose)
  {
    HeadForced(h, m.start, m.keyword, m.host, m.hostEnd, m.open);
    TailForced(h, m.open, m.tag, m.bracket, m.close);
  }

  /** Two matches that start at the same place and agree on the optional group are the same match. */
  lemma ShapeUnique(h: string, m1: MatchShape, m2: MatchShape)
    requires IsMatch(h, m1) && IsMatch(h, m2)
    requires m1.start == m2.start && m1.tag.Some? == m2.tag.Some?
    ensures m1 == m2
  {
    HeadUnique(h, m1.start, m1.keyword, m1.host, m1.hostEnd, m1.open, m2.keyword, m2.host, m2.hostEnd, m2.open);
    TailUnique(h, m1.open, m1.tag, m1.bracket, m1.close, m2.tag, m2.bracket, m2.close);
  }

  /** Two heads from the same start are the same head. */
  lemma HeadUnique(h: string, start: nat, k1: nat, s1: nat, e1: nat, o1: nat, k2: nat, s2: nat, e2: nat, o2: nat)
    requires HeadAt(h, start, k1, s1, e1, o1) && HeadAt(h, start, k2, s2, e2, o2)
    ensures k1 == k2 && s1 == s2 && e1 == e2 && o1 == o2
  {
    HeadForced(h, start, k1, s1, e1, o1);
    HeadForced(h, start, k2, s2, e2, o2);
  }

  /** Two tails after the same `(` that agree on the optional group are the same tail. */
  lemma TailUnique(h: string, open: nat, t1: Option<nat>, b1: nat, c1: nat, t2: Option<nat>, b2: nat, c2: nat)
    requires TailAt(h, open, t1, b1, c1) && TailAt(h, open, t2, b2, c2) && t1.Some? == t2.Some?
    ensures t1 == t2 && b1 == b2 && c1 == c2
  {
    TailForced(h, open, t1, b1, c1);
    TailForced(h, open, t2, b2, c2);
  }

  /** There is at most one reported match. */
  lemma ReportedUnique(h: string, m1: MatchShape, m2: MatchShape)
    requires Reported(h, m1) && Reported(h, m2)
    ensures m1 == m2
  {
    ShapeUnique(h, m1, m2);
  }

  /** The `\[([^]]+)\]\)` tail tried at `bracket`: the index of `]` when it matches. */
  function AddressFrom(h: string, bracket: nat): (r: Option<nat>)
    requires bracket <= |h|
    ensures r.Some? ==> AddressAt(h, bracket, r.value)
    ensures r.None? ==> forall c :: !AddressAt(h, bracket, c)
  {
    if bracket < |h| && h[bracket] == '[' then
      var c := Span(h, bracket + 1, NotClose);
      if bracket + 1 < c && c + 1 < |h| && h[c + 1] == ')' then Some(c)
      else None
    else None
  }

  /** Where the tail of one match lies: the end of the optional group's token, `[` and `]`. */
  datatype TailShape = TailShape(tag: Option<nat>, bracket: nat, close: nat)

  /**
    The tail `([^\s]+\s+)?\[([^]]+)\]\)` tried just after the `(` at `open`, the way the
    backtracking matcher tries it: the optional group first with, then without.
   */
  function TailFrom(h: string, open: nat): (r: Option<TailShape>)
    requires open < |h|
    ensures r.Some? ==> TailAt(h, open, r.value.tag, r.value.bracket, r.value.close)
  {
    var tagEnd := Span(h, open + 1, NonSpace);
    var bracket := Span(h, tagEnd, Space);
    var tagged := if open + 1 < tagEnd < bracket then AddressFrom(h, bracket) else None;
    if tagged.Some? then Some(TailShape(Some(tagEnd), bracket, tagged.value))
    else
      match AddressFrom(h, open + 1)
      case Some(c) => Some(TailShape(None, open + 1, c))
      case None => None
  }

  /** TailFrom finds a tail whenever there is one, and one with the optional group whenever that can take part. */
  lemma TailFromComplete(h: string, open: nat, tag: Option<nat>, bracket: nat, close: nat)
    requires open < |h| && TailAt(h, open, tag, bracket, close)
    ensures TailFrom(h, open).Some?
    ensures tag.Some? ==> TailFrom(h, open).value.tag.Some?
  {
    TailForced(h, open, tag, bracket, close);
  }

  /**
    The pattern tried at one start position, the way the backtracking matcher tries
    it: `\s*` and each run greedy, then the tail.
   */
  function MatchAt(h: string, p: nat): (r: Option<MatchShape>)
    requires p <= |h|
    ensures r.Some? ==> IsMatch(h, r.value) && r.value.start == p
  {
    var q := Span(h, p, Space);
    if !(q + 4 <= |h| && EqualsIgnoreCase(h[q..q + 4], Keyword)) then None
    else
      var host := Span(h, q + 4, Space);
      var hostEnd := Span(h, host, NonSpace);
      var open := Span(h, hostEnd, Space);
      if !(q + 4 < host < hostEnd < open < |h| && h[open] == '(') then None
      else
        match TailFrom(h, open)
        case None => None
        case Some(t) => Some(MatchShape(p, q, host, hostEnd, open, t.tag, t.bracket, t.close))
  }

  /**
    MatchAt is complete and keeps the matcher's preference: when some match starts at
    p it finds one, and it leaves out the optional group only when no match starting
    at p uses it.
   */
  lemma MatchAtComplete(h: string, p: nat)
    requires p <= |h|
    ensures MatchAt(h, p).None? ==> forall m :: IsMatch(h, m) ==> m.start != p
    ensures MatchAt(h, p).Some? ==>
      forall m :: IsMatch(h, m) && m.start == p && m.tag.Some? ==> MatchAt(h, p).value.tag.Some?
  {
    forall m | IsMatch(h, m) && m.start == p
      ensures MatchAt(h, p).Some?
      ensures m.tag.Some? ==> MatchAt(h, p).value.tag.Some?
    {
      MatchAtFinds(h, m);
    }
  }

  /** Where a match starts, MatchAt finds one, with the optional group if that match has it. */
  lemma MatchAtFinds(h: string, m: MatchShape)
    requires IsMatch(h, m) && m.start <= |h|
    ensures MatchAt(h, m.start).Some?
    ensures m.tag.Some? ==> MatchAt(h, m.start).value.tag.Some?
  {
    HeadForced(h, m.start, m.keyword, m.host, m.hostEnd, m.open);
    TailFromComplete(h, m.open, m.tag, m.bracket, m.close);
    var t := TailFrom(h, m.open).value;
    assert MatchAt(h, m.start)
        == Some(MatchShape(m.start, m.keyword, m.host, m.hostEnd, m.open, t.tag, t.bracket, t.close));
  }

  /** The scan of `re.search`: the start positions p, p + 1, ... in turn. */
  function SearchFrom(h: string, p: nat): (r: Option<MatchShape>)
    requires p <= |h|
    ensures r.Some? ==> IsMatch(h, r.value) && p <= r.value.start
    decreases |h| - p
  {
    match MatchAt(h, p)
    case Some(m) => Some(m)
    case None => if p == |h| then None else SearchFrom(h, p + 1)
  }

  /** No match starts at or after p. */
  ghost predicate NoMatchFrom(h: string, p: nat) {
    forall m :: IsMatch(h, m) ==> m.start < p
  }

  /** `x` is the match the matcher prefers among those starting at or after p. */
  ghost predicate FirstMatchFrom(h: string, p: nat, x: MatchShape) {
    forall m :: IsMatch(h, m) && p <= m.start ==>
      && x.start <= m.start
      && (m.start == x.start && m.tag.Some? ==> x.tag.Some?)
  }

  /** Preferred from p + 1 is preferred from p when nothing starts at p. */
  lemma StartLater(h: string, p: nat, x: MatchShape)
    requires FirstMatchFrom(h, p + 1, x)
    requires forall m :: IsMatch(h, m) && p <= m.start ==> p + 1 <= m.start
    ensures FirstMatchFrom(h, p, x)
  {
  }

  /** A match found at p is the preferred one among those starting at or after p. */
  lemma PreferredHere(h: string, p: nat)
    requires p <= |h| && MatchAt(h, p).Some?
    ensures FirstMatchFrom(h, p, MatchAt(h, p).value)
  {
    MatchAtComplete(h, p);
  }

  /** When MatchAt finds nothing at p, no match starts at p. */
  lemma NothingHere(h: string, p: nat)
    requires p <= |h| && MatchAt(h, p).None?
    ensures forall m :: IsMatch(h, m) && p <= m.start ==> p + 1 <= m.start
  {
    MatchAtComplete(h, p);
  }

  /** Scanning from p finds the leftmost match starting at or after p, with the matcher's preference. */
  lemma {:induction false} SearchFromLeftmost(h: string, p: nat)
    requires p <= |h|
    ensures SearchFrom(h, p).None? ==> NoMatchFrom(h, p)
    ensures SearchFrom(h, p).Some? ==> FirstMatchFrom(h, p, SearchFrom(h, p).value)
    decreases |h| - p
  {
    if MatchAt(h, p).Some? {
      PreferredHere(h, p);
    } else {
      NothingHere(h, p);
      if p < |h| {
        SearchFromLeftmost(h, p + 1);
        if SearchFrom(h, p + 1).Some? {
          StartLater(h, p, SearchFrom(h, p + 1).value);
        }
      }
    }
  }

  /** `re.search` with the pattern: the reported match, or None exactly when nothing matches. */
  function Search(h: string): (r: Option<MatchShape>)
    ensures r.Some? ==> Reported(h, r.value)
    ensures r.None? <==> forall m :: !IsMatch(h, m)
  {
    SearchFromLeftmost(h, 0);
    SearchFrom(h, 0)
  }

  /** What group 2 of any match looks like: non-empty, free of `]`, and followed by `])`. */
  lemma GroupShape(h: string, m: MatchShape)
    requires IsMatch(h, m)
    ensures |Group(h, m)| > 0 && ']' !in Group(h, m)
    ensures ClosedAt(h, Group(h, m), m.bracket + 1)
  {
    var a := Group(h, m);
    assert AddressAt(h, m.bracket, m.close);
    assert forall x :: 0 <= x < |a| ==> a[x] == h[m.bracket + 1 + x];
  }

  /**
    `match.group(2)` of the search, or None when the header does not match. An
    address, when found, is non-empty, holds no `]`, is immediately followed by `])`
    in the header, and is the group of the one match `re.search` reports.
   */
  function ReceivedAddress(h: string): (r: Option<string>)
    ensures r.None? <==> forall m :: !IsMatch(h, m)
    ensures r.Some? ==> |r.value| > 0 && ']' !in r.value
    ensures r.Some? ==> exists k :: ClosedAt(h, r.value, k)
    ensures r.Some? ==> exists m :: Reported(h, m) && r.value == Group(h, m)
  {
    match Search(h)
    case None => None
    case Some(m) =>
      GroupShape(h, m);
      Some(Group(h, m))
  }

  /** The address found is the group of the reported match. */
  lemma AddressIsReported(h: string, m: MatchShape)
    requires Reported(h, m)
    ensures ReceivedAddress(h) == Some(Group(h, m))
    ensures forall m' :: Reported(h, m') ==> m' == m
  {
    var a := ReceivedAddress(h).value;
    var m' :| Reported(h, m') && a == Group(h, m');
    ReportedUnique(h, m, m');
    forall m'' | Reported(h, m'')
      ensures m'' == m
    {
      ReportedUnique(h, m, m'');
    }
  }

  /** Shifting a match right by |pre| gives a match of `pre + h`. */
  function Shift(m: MatchShape, n: nat): MatchShape {
    MatchShape(m.start + n, m.keyword + n, m.host + n, m.hostEnd + n, m.open + n,
               match m.tag case None => None case Some(t) => Some(t + n),
               m.bracket + n, m.close + n)
  }

  /** A run of class-k characters stays one after any prefix. */
  lemma AllInShift(pre: string, h: string, i: nat, j: nat, k: CharClass)
    requires i <= j <= |h| && AllIn(h, i, j, k)
    ensures AllIn(pre + h, i + |pre|, j + |pre|, k)
  {
    assert forall x :: i <= x < j ==> (pre + h)[x + |pre|] == h[x];
  }

  /** A head of `h` is, shifted, a head of `pre + h`. */
  lemma ShiftHead(pre: string, h: string, start: nat, keyword: nat, host: nat, hostEnd: nat, open: nat)
    requires HeadAt(h, start, keyword, host, hostEnd, open)
    ensures var n := |pre|; HeadAt(pre + h, start + n, keyword + n, host + n, hostEnd + n, open + n)
  {
    var n := |pre|;
    var h' := pre + h;
    assert h'[keyword + n..keyword + n + 4] == h[keyword..keyword + 4] by {
      assert h'[n..] == h;
    }
    assert h'[open + n] == h[open];
    AllInShift(pre, h, start, keyword, Space);
    AllInShift(pre, h, keyword + 4, host, Space);
    AllInShift(pre, h, host, hostEnd, NonSpace);
    AllInShift(pre, h, hostEnd, open, Space);
  }

  /** A tail of `h` is, shifted, a tail of `pre + h`. */
  lemma ShiftTail(pre: string, h: string, open: nat, tag: Option<nat>, bracket: nat, close: nat)
    requires TailAt(h, open, tag, bracket, close)
    ensures var n := |pre|;
            TailAt(pre + h, open + n, match tag case None => None case Some(t) => Some(t + n), bracket + n, close + n)
  {
    var n := |pre|;
    var h' := pre + h;
    assert h'[bracket + n] == h[bracket] && h'[close + n] == h[close] && h'[close + 1 + n] == h[close + 1];
    AllInShift(pre, h, bracket + 1, close, NotClose);
    if tag.Some? {
      AllInShift(pre, h, open + 1, tag.value, NonSpace);
      AllInShift(pre, h, tag.value, bracket, Space);
    }
  }

  /** A match of `h` is, shifted, a match of `pre + h`. */
  lemma ShiftMatch(pre: string, h: string, m: MatchShape)
    requires IsMatch(h, m)
    ensures IsMatch(pre + h, Shift(m, |pre|))
  {
    ShiftHead(pre, h, m.start, m.keyword, m.host, m.hostEnd, m.open);
    ShiftTail(pre, h, m.open, m.tag, m.bracket, m.close);
  }

  /**
    The search is unanchored: text in front of a header never hides a match, so a
    header that yields an address still yields one after any prefix.
   */
  lemma SearchIsUnanchored(pre: string, h: string)
    ensures ReceivedAddress(h).Some? ==> ReceivedAddress(pre + h).Some?
  {
    if ReceivedAddress(h).Some? {
      ShiftMatch(pre, h, Search(h).value);
    }
  }

  /** No character of s is `\s` whitespace. */
  predicate NoSpace(s: string) {
    forall k :: 0 <= k < |s| ==> !IsSpace(s[k])
  }

  /** The shape of `from HOST ([ADDRESS])`: the whole line matches, without the optional group. */
  lemma PlainTraceMatches(from: string, host: string, ip: string)
    requires EqualsIgnoreCase(from, Keyword)
    requires |host| > 0 && NoSpace(host)
    requires |ip| > 0 && ']' !in ip
    ensures var h := from + " " + host + " ([" + ip + "])";
            var e := 5 + |host|;
            && IsMatch(h, MatchShape(0, 0, 5, e, e + 1, None, e + 2, e + 3 + |ip|))
            && Group(h, MatchShape(0, 0, 5, e, e + 1, None, e + 2, e + 3 + |ip|)) == ip
  {
    var h := from + " " + host + " ([" + ip + "])";
    var e := 5 + |host|;
    var close := e + 3 + |ip|;
    assert |h| == close + 2;
    assert h[..4] == from && h[4] == ' ';
    assert h[5..e] == host;
    assert h[e..e + 3] == " ([";
    assert h[e + 3..close] == ip;
    assert h[close..] == "])";
    assert EqualsIgnoreCase(h[0..4], Keyword);
    assert HeadAt(h, 0, 0, 5, e, e + 1);
    assert AddressAt(h, e + 2, close);
  }

  /** When everything after `(` is non-space, `[^\s]+` swallows the rest and the optional group cannot take part. */
  lemma TokenToEndLeavesNoTag(h: string, open: nat, tag: Option<nat>, bracket: nat, close: nat)
    requires open < |h| && AllIn(h, open + 1, |h|, NonSpace)
    requires TailAt(h, open, tag, bracket, close)
    ensures tag.None?
  {
    if tag.Some? {
      SpanForced(h, open + 1, |h|, NonSpace);
      TailForced(h, open, tag, bracket, close);
      assert false;
    }
  }

  /** In `from HOST ([ADDRESS])` everything after `(` is non-space. */
  lemma PlainTraceTail(from: string, host: string, ip: string)
    requires |from| == 4 && |ip| > 0 && NoSpace(ip)
    ensures var h := from + " " + host + " ([" + ip + "])";
            6 + |host| < |h| && AllIn(h, 7 + |host|, |h|, NonSpace)
  {
    var h := from + " " + host + " ([" + ip + "])";
    var e := 5 + |host|;
    var rest := h[e + 2..];
    assert rest == "[" + ip + "])";
    forall x | e + 2 <= x < |h|
      ensures InClass(h[x], NonSpace)
    {
      assert h[x] == rest[x - (e + 2)];
    }
  }

  /** No match of `from HOST ([ADDRESS])` uses the optional group. */
  lemma PlainTraceUntagged(from: string, host: string, ip: string, m: MatchShape)
    requires EqualsIgnoreCase(from, Keyword)
    requires |host| > 0 && NoSpace(host)
    requires |ip| > 0 && NoSpace(ip) && ']' !in ip
    requires IsMatch(from + " " + host + " ([" + ip + "])", m)
    ensures m.tag.None?
  {
    var h := from + " " + host + " ([" + ip + "])";
    var e := 5 + |host|;
    PlainTraceMatches(from, host, ip);
    PlainTraceTail(from, host, ip);
    HeadForced(h, 0, 0, 5, e, e + 1);
    HeadForced(h, m.start, m.keyword, m.host, m.hostEnd, m.open);
    TokenToEndLeavesNoTag(h, m.open, m.tag, m.bracket, m.close);
  }

  /**
    The plainest trace line, `from HOST ([ADDRESS])` as a relay writes it for a client
    that gave no HELO name, yields ADDRESS: the bracketed literal, whatever the host,
    and with `from` spelt in any mix of cases.
   */
  lemma PlainTraceYieldsAddress(from: string, host: string, ip: string)
    requires EqualsIgnoreCase(from, Keyword)
    requires |host| > 0 && NoSpace(host)
    requires |ip| > 0 && NoSpace(ip) && ']' !in ip
    ensures ReceivedAddress(from + " " + host + " ([" + ip + "])") == Some(ip)
  {
    var h := from + " " + host + " ([" + ip + "])";
    var e := 5 + |host|;
    var m := MatchShape(0, 0, 5, e, e + 1, None, e + 2, e + 3 + |ip|);
    PlainTraceMatches(from, host, ip);
    forall m' | IsMatch(h, m')
      ensures m.start <= m'.start
      ensures m'.start == m.start && m'.tag.Some? ==> m.tag.Some?
    {
      PlainTraceUntagged(from, host, ip, m');
    }
    assert Reported(h, m);
    AddressIsReported(h, m);
  }
}
