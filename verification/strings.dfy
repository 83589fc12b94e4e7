/**
  The few Python 2 byte-string primitives the bounce gate relies on: `str.lower()`,
  `str.split(sep, maxsplit)` and the `\s` character class of `re`.
 */
module Strings {

  /** The characters `\s` matches in a Python 2 byte-string pattern: space, \t, \n, \v, \f, \r. */
  predicate IsSpace(c: char) {
    c == ' ' || c == '\t' || c == '\n' || c == '\U{000B}' || c == '\U{000C}' || c == '\r'
  }

  /** ASCII lower-casing, as `str.lower()` does on Python 2 byte strings; other characters are unchanged. */
  function LowerChar(c: char): char {
    if 'A' <= c <= 'Z' then (c as int + 32) as char else c
  }

  function Lower(s: string): (r: string)
    ensures |r| == |s|
    ensures forall k :: 0 <= k < |s| ==> r[k] == LowerChar(s[k])
  {
    seq(|s|, k requires 0 <= k < |s| => LowerChar(s[k]))
  }

  /** `a` and `b` are the same text up to ASCII case, position by position. */
  predicate EqualsIgnoreCase(a: string, b: string) {
    |a| == |b| && forall k :: 0 <= k < |a| ==> LowerChar(a[k]) == LowerChar(b[k])
  }

  /** Comparing `a.lower() == b.lower()` is exactly case-insensitive equality. */
  lemma LowerEqualIff(a: string, b: string)
    ensures Lower(a) == Lower(b) <==> EqualsIgnoreCase(a, b)
  {
    if EqualsIgnoreCase(a, b) {
      assert forall k :: 0 <= k < |a| ==> Lower(a)[k] == Lower(b)[k];
    }
  }

  /** Python's `sep.join(parts)` for a one-character separator. */
  function Join(parts: seq<string>, sep: char): string
  {
    if |parts| == 0 then ""
    else if |parts| == 1 then parts[0]
    else parts[0] + [sep] + Join(parts[1..], sep)
  }

  /** Joining a part in front of a non-empty list puts one separator between them. */
  lemma JoinCons(p: string, rest: seq<string>, sep: char)
    requires |rest| >= 1
    ensures Join([p] + rest, sep) == p + [sep] + Join(rest, sep)
  {
    assert ([p] + rest)[1..] == rest;
  }

  /** Index of the first occurrence of `c` in `s`. */
  function IndexOf(s: string, c: char): (i: nat)
    requires c in s
    ensures i < |s| && s[i] == c && c !in s[..i]
  {
    if s[0] == c then 0
    else
      assert c in s[1..] by { assert s == [s[0]] + s[1..]; }
      var j := IndexOf(s[1..], c);
      assert s[..j + 1] == [s[0]] + s[1..][..j];
      j + 1
  }

  /**
    `parts` is what Python's `s.split(sep, maxsplit)` returns: the parts join back to
    `s`, no part before the last holds `sep`, and the last part may still hold one only
    when all `maxsplit` cuts were made.
   */
  predicate IsSplit(s: string, sep: char, maxsplit: nat, parts: seq<string>) {
    && 1 <= |parts| <= maxsplit + 1
    && Join(parts, sep) == s
    && (forall k :: 0 <= k < |parts| - 1 ==> sep !in parts[k])
    && (|parts| <= maxsplit ==> sep !in parts[|parts| - 1])
  }

  /** Python's `s.split(sep, maxsplit)` for a one-character separator. */
  function Split(s: string, sep: char, maxsplit: nat): (parts: seq<string>)
    ensures IsSplit(s, sep, maxsplit, parts)
    decreases maxsplit
  {
    if maxsplit == 0 || sep !in s then [s]
    else
      var i := IndexOf(s, sep);
      var rest := Split(s[i + 1..], sep, maxsplit - 1);
      SplitCons(s, sep, maxsplit, rest);
      [s[..i]] + rest
  }

  /** Cutting at the first separator and splitting the remainder with one cut fewer splits the whole. */
  lemma SplitCons(s: string, sep: char, maxsplit: nat, rest: seq<string>)
    requires maxsplit > 0 && sep in s
    requires IsSplit(s[IndexOf(s, sep) + 1..], sep, maxsplit - 1, rest)
    ensures IsSplit(s, sep, maxsplit, [s[..IndexOf(s, sep)]] + rest)
  {
    var i := IndexOf(s, sep);
    var parts := [s[..i]] + rest;
    JoinCons(s[..i], rest, sep);
    assert s == s[..i] + [sep] + s[i + 1..];
    assert parts[|parts| - 1] == rest[|rest| - 1];
    forall k | 0 <= k < |parts| - 1
      ensures sep !in parts[k]
    {
      if k > 0 {
        assert parts[k] == rest[k - 1];
      }
    }
  }

  /** When the first part holds no separator, the first separator of the joined text ends it. */
  lemma FirstCut(s: string, sep: char, parts: seq<string>)
    requires |parts| >= 2 && Join(parts, sep) == s && sep !in parts[0]
    ensures sep in s
    ensures IndexOf(s, sep) == |parts[0]|
    ensures s[..IndexOf(s, sep)] == parts[0]
    ensures s[IndexOf(s, sep) + 1..] == Join(parts[1..], sep)
  {
    var tail := parts[1..];
    var j := Join(tail, sep);
    assert parts == [parts[0]] + tail;
    JoinCons(parts[0], tail, sep);
    assert s == parts[0] + [sep] + j;
    var n := |parts[0]|;
    assert s[n] == sep;
  }

  /**
    A string has only one split: any two lists of parts that both satisfy IsSplit for
    the same text, separator and limit are equal, so IsSplit characterises `split`.
   */
  lemma {:induction false} SplitUnique(s: string, sep: char, maxsplit: nat, parts: seq<string>, other: seq<string>)
    requires IsSplit(s, sep, maxsplit, parts) && IsSplit(s, sep, maxsplit, other)
    ensures parts == other
    decreases maxsplit
  {
    if |parts| == 1 && |other| == 1 {
    } else if |parts| == 1 {
      FirstCut(s, sep, other);
      assert false;
    } else if |other| == 1 {
      FirstCut(s, sep, parts);
      assert false;
    } else {
      FirstCut(s, sep, parts);
      FirstCut(s, sep, other);
      var rest := s[IndexOf(s, sep) + 1..];
      var t1, t2 := parts[1..], other[1..];
      assert t1[|t1| - 1] == parts[|parts| - 1];
      assert t2[|t2| - 1] == other[|other| - 1];
      forall k | 0 <= k < |t1| - 1
        ensures sep !in t1[k]
      {
        assert t1[k] == parts[k + 1];
      }
      forall k | 0 <= k < |t2| - 1
        ensures sep !in t2[k]
      {
        assert t2[k] == other[k + 1];
      }
      SplitUnique(rest, sep, maxsplit - 1, t1, t2);
      assert parts == [parts[0]] + t1;
      assert other == [other[0]] + t2;
    }
  }
}
