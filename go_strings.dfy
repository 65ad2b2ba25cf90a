/**
 * The parts of Go's `strings`, `strconv` and `bufio` packages that the analyzer
 * relies on, as functions over strings. A string is a sequence of Unicode code
 * points; searching for a substring gives the same answer on code points as on
 * the UTF-8 bytes Go works with.
 */
module GoStrings {
  import opened Wrappers

  /** `t` occurs in `s` starting at offset `k`. */
  predicate MatchAt(s: string, t: string, k: int) {
    0 <= k && k + |t| <= |s| && s[k..k + |t|] == t
  }

  /** The left-most occurrence of `t` in `s` at or after `from`, or -1. */
  function IndexFrom(s: string, t: string, from: nat): (r: int)
    ensures r == -1 || (from <= r && MatchAt(s, t, r))
    ensures forall k :: from <= k && (r == -1 || k < r) ==> !MatchAt(s, t, k)
    decreases |s| - from
  {
    if from + |t| > |s| then -1
    else if s[from..from + |t|] == t then from
    else IndexFrom(s, t, from + 1)
  }

  /** strings.Index: the left-most occurrence of `t` in `s`, or -1 when there is none. */
  function Index(s: string, t: string): (r: int)
    ensures r == -1 || MatchAt(s, t, r)
    ensures forall k :: 0 <= k && (r == -1 || k < r) ==> !MatchAt(s, t, k)
  {
    IndexFrom(s, t, 0)
  }

  /** strings.Contains (and `strings.LastIndex(s, t) >= 0`, which holds in the same cases). */
  predicate Contains(s: string, t: string) {
    Index(s, t) >= 0
  }

  lemma ContainsAt(s: string, t: string, k: int)
    requires MatchAt(s, t, k)
    ensures Contains(s, t) && 0 <= Index(s, t) <= k
  {
  }

  lemma IndexOfEmpty(s: string)
    ensures Index(s, "") == 0
  {
    assert MatchAt(s, "", 0);
  }

  /** An occurrence inside the first part of a concatenation is an occurrence inside that part. */
  lemma MatchAtPrefix(u: string, v: string, t: string, k: int)
    requires MatchAt(u + v, t, k) && k + |t| <= |u|
    ensures MatchAt(u, t, k)
  {
    assert (u + v)[k..k + |t|] == u[k..k + |t|];
  }

  lemma MatchAtExtend(u: string, v: string, t: string, k: int)
    requires MatchAt(u, t, k)
    ensures MatchAt(u + v, t, k)
  {
    assert (u + v)[k..k + |t|] == u[k..k + |t|];
  }

  lemma MatchAtShift(u: string, v: string, t: string, k: int)
    requires 0 <= k
    ensures MatchAt(v, t, k) <==> MatchAt(u + v, t, |u| + k)
  {
    if k + |t| <= |v| {
      assert (u + v)[|u| + k..|u| + k + |t|] == v[k..k + |t|];
    }
  }

  /** A one-character pattern matches exactly where that character stands. */
  lemma MatchAtChar(s: string, c: char, k: int)
    ensures MatchAt(s, [c], k) <==> 0 <= k < |s| && s[k] == c
  {
    if 0 <= k < |s| {
      assert s[k..k + 1] == [s[k]];
    }
  }

  lemma ContainsChar(s: string, c: char)
    ensures Contains(s, [c]) <==> c in s
  {
    if c in s {
      var k :| 0 <= k < |s| && s[k] == c;
      MatchAtChar(s, c, k);
      ContainsAt(s, [c], k);
    }
    if Contains(s, [c]) {
      MatchAtChar(s, c, Index(s, [c]));
    }
  }

  /** strings.Join */
  function Join(parts: seq<string>, sep: string): string {
    if |parts| == 0 then ""
    else if |parts| == 1 then parts[0]
    else parts[0] + sep + Join(parts[1..], sep)
  }

  /**
   * strings.Split for a non-empty separator: cuts `s` at every left-most,
   * non-overlapping occurrence of `sep`. Joining the pieces gives `s` back and
   * no piece contains the separator.
   */
  function Split(s: string, sep: string): (r: seq<string>)
    requires sep != ""
    ensures |r| >= 1 && Join(r, sep) == s
    ensures forall i :: 0 <= i < |r| ==> !Contains(r[i], sep)
    decreases |s|
  {
    var i := Index(s, sep);
    if i < 0 then [s]
    else
      NoMatchBefore(s, sep, i);
      assert s == s[..i] + sep + s[i + |sep|..];
      [s[..i]] + Split(s[i + |sep|..], sep)
  }

  /** strings.SplitN for n >= 1: at most n pieces, the last one holding the unsplit rest. */
  function SplitN(s: string, sep: string, n: nat): (r: seq<string>)
    requires sep != "" && n >= 1
    ensures 1 <= |r| <= n && Join(r, sep) == s
    ensures forall i :: 0 <= i < |r| - 1 ==> !Contains(r[i], sep)
    ensures |r| < n ==> !Contains(r[|r| - 1], sep)
    decreases n
  {
    if n == 1 then
      SplitNWhole(s, sep, n);
      [s]
    else
      var i := Index(s, sep);
      if i < 0 then
        SplitNWhole(s, sep, n);
        [s]
      else
        FirstCut(s, sep, i);
        var rest := SplitN(s[i + |sep|..], sep, n - 1);
        ConsPieces(s[..i], rest, sep, n);
        [s[..i]] + rest
  }

  /** No more pieces allowed, or nothing to cut at: the whole text is the one piece. */
  lemma SplitNWhole(s: string, sep: string, n: nat)
    requires n == 1 || !Contains(s, sep)
    ensures Join([s], sep) == s
    ensures 1 < n ==> !Contains(s, sep)
  {
  }

  /** The first occurrence of `sep` splits `s` into a separator-free head, `sep` and the rest. */
  lemma FirstCut(s: string, sep: string, i: int)
    requires sep != "" && i == Index(s, sep) && i >= 0
    ensures i + |sep| <= |s| && s == s[..i] + sep + s[i + |sep|..] && !Contains(s[..i], sep)
  {
    NoMatchBefore(s, sep, i);
    assert s[i..i + |sep|] == sep;
  }

  /** A separator-free head in front of SplitN's pieces of the rest. */
  lemma ConsPieces(head: string, rest: seq<string>, sep: string, n: nat)
    requires n > 1 && !Contains(head, sep) && 1 <= |rest| <= n - 1
    requires forall j :: 0 <= j < |rest| - 1 ==> !Contains(rest[j], sep)
    requires |rest| < n - 1 ==> !Contains(rest[|rest| - 1], sep)
    ensures 1 <= |[head] + rest| <= n && Join([head] + rest, sep) == head + sep + Join(rest, sep)
    ensures forall j :: 0 <= j < |[head] + rest| - 1 ==> !Contains(([head] + rest)[j], sep)
    ensures |[head] + rest| < n ==> !Contains(([head] + rest)[|[head] + rest| - 1], sep)
  {
    var r := [head] + rest;
    assert r[1..] == rest;
    forall j | 0 <= j < |r| - 1
      ensures !Contains(r[j], sep)
    {
      if j > 0 {
        assert r[j] == rest[j - 1];
      }
    }
    assert r[|r| - 1] == rest[|rest| - 1];
  }

  /** The text before the first occurrence of `sep` does not contain `sep`. */
  lemma NoMatchBefore(s: string, sep: string, i: int)
    requires sep != "" && 0 <= i <= |s|
    requires forall k :: 0 <= k < i ==> !MatchAt(s, sep, k)
    ensures !Contains(s[..i], sep)
  {
    if Contains(s[..i], sep) {
      var head := s[..i];
      var k := Index(head, sep);
      assert MatchAt(head, sep, k);
      assert s == head + s[i..];
      MatchAtExtend(head, s[i..], sep, k);
      assert false;
    }
  }

  /**
   * `p` followed by `sep` holds no occurrence of `sep` that starts inside `p`:
   * a left-most search for `sep` in `p + sep + rest` stops right after `p`.
   */
  predicate NoEarlyMatch(p: string, sep: string) {
    forall k :: 0 <= k < |p| ==> !MatchAt(p + sep, sep, k)
  }

  lemma IndexAfterPiece(p: string, sep: string, rest: string)
    requires NoEarlyMatch(p, sep)
    ensures Index(p + sep + rest, sep) == |p|
  {
    var s := p + sep + rest;
    assert s[|p|..|p| + |sep|] == sep;
    assert MatchAt(s, sep, |p|);
    var i := Index(s, sep);
    if i < |p| {
      MatchAtPrefix(p + sep, rest, sep, i);
      assert false;
    }
  }

  lemma NoEarlyMatchNotContains(p: string, sep: string)
    requires sep != "" && NoEarlyMatch(p, sep)
    ensures !Contains(p, sep)
  {
    if Contains(p, sep) {
      var k := Index(p, sep);
      MatchAtExtend(p, sep, sep, k);
      assert false;
    }
  }

  /** A piece without the character `c` is never cut early by a split on `c`. */
  lemma NoEarlyMatchChar(p: string, c: char)
    requires c !in p
    ensures NoEarlyMatch(p, [c])
  {
    forall k | 0 <= k < |p|
      ensures !MatchAt(p + [c], [c], k)
    {
      MatchAtChar(p + [c], c, k);
    }
  }

  /** Splitting a join gives the parts back when no part lets the separator start early. */
  lemma {:induction false} SplitJoin(parts: seq<string>, sep: string)
    requires sep != "" && |parts| >= 1
    requires forall i :: 0 <= i < |parts| ==> NoEarlyMatch(parts[i], sep)
    ensures Split(Join(parts, sep), sep) == parts
  {
    if |parts| == 1 {
      NoEarlyMatchNotContains(parts[0], sep);
    } else {
      var rest := Join(parts[1..], sep);
      IndexAfterPiece(parts[0], sep, rest);
      var s := parts[0] + sep + rest;
      assert s[..|parts[0]|] == parts[0];
      assert s[|parts[0]| + |sep|..] == rest;
      SplitJoin(parts[1..], sep);
    }
  }

  lemma {:induction false} JoinHead(parts: seq<string>, sep: string)
    requires |parts| >= 1 && parts[0] != ""
    ensures Join(parts, sep) != "" && Join(parts, sep)[0] == parts[0][0]
  {
  }

  lemma {:induction false} JoinAppend(parts: seq<string>, sep: string, last: string)
    requires |parts| >= 1
    ensures Join(parts + [last], sep) == Join(parts, sep) + sep + last
  {
    if |parts| > 1 {
      assert (parts + [last])[1..] == parts[1..] + [last];
      JoinAppend(parts[1..], sep, last);
    }
  }

  /** SplitN into as many pieces as were joined gives them back; the last piece may hold anything. */
  lemma {:induction false} SplitNJoin(parts: seq<string>, sep: string)
    requires sep != "" && |parts| >= 1
    requires forall i :: 0 <= i < |parts| - 1 ==> NoEarlyMatch(parts[i], sep)
    ensures SplitN(Join(parts, sep), sep, |parts|) == parts
  {
    if |parts| == 1 {
      assert SplitN(parts[0], sep, 1) == [parts[0]] == parts;
    } else {
      var tail := parts[1..];
      NoEarlyMatchTail(parts, sep);
      SplitNJoin(tail, sep);
      SplitNJoinFirst(parts[0], tail, sep);
      assert [parts[0]] + tail == parts;
    }
  }

  lemma NoEarlyMatchTail(parts: seq<string>, sep: string)
    requires |parts| >= 1
    requires forall i :: 0 <= i < |parts| - 1 ==> NoEarlyMatch(parts[i], sep)
    ensures forall i :: 0 <= i < |parts[1..]| - 1 ==> NoEarlyMatch(parts[1..][i], sep)
  {
    forall i | 0 <= i < |parts[1..]| - 1
      ensures NoEarlyMatch(parts[1..][i], sep)
    {
      assert parts[1..][i] == parts[i + 1];
    }
  }

  /** The first piece of a join comes off at the first separator, the rest is split once less. */
  lemma SplitNJoinFirst(p: string, tail: seq<string>, sep: string)
    requires sep != "" && |tail| >= 1 && NoEarlyMatch(p, sep)
    ensures SplitN(Join([p] + tail, sep), sep, |tail| + 1) == [p] + SplitN(Join(tail, sep), sep, |tail|)
  {
    var rest := Join(tail, sep);
    assert ([p] + tail)[1..] == tail;
    var s := p + sep + rest;
    assert Join([p] + tail, sep) == s;
    IndexAfterPiece(p, sep, rest);
    assert s[..|p|] == p;
    assert s[|p| + |sep|..] == rest;
  }

  /** Prepending to a join prepends to its first part. */
  lemma PrependToJoin(x: string, parts: seq<string>, sep: string)
    requires |parts| >= 1
    ensures x + Join(parts, sep) == Join([x + parts[0]] + parts[1..], sep)
  {
    var parts' := [x + parts[0]] + parts[1..];
    assert parts'[1..] == parts[1..];
    if |parts| > 1 {
      assert x + (parts[0] + sep + Join(parts[1..], sep)) == (x + parts[0]) + sep + Join(parts[1..], sep);
    }
  }

  /** strings.ReplaceAll for a one-character pattern, written character by character. */
  function ReplaceAll(s: string, c: char, with: string): (r: string)
    ensures forall d :: d in r ==> (d in s && d != c) || d in with
    ensures c !in with ==> c !in r
  {
    if s == "" then ""
    else (if s[0] == c then with else [s[0]]) + ReplaceAll(s[1..], c, with)
  }

  lemma {:induction false} ReplaceAllConcat(a: string, b: string, c: char, with: string)
    ensures ReplaceAll(a + b, c, with) == ReplaceAll(a, c, with) + ReplaceAll(b, c, with)
  {
    if a != "" {
      assert (a + b)[0] == a[0];
      assert (a + b)[1..] == a[1..] + b;
      ReplaceAllConcat(a[1..], b, c, with);
      var h := if a[0] == c then with else [a[0]];
      assert ReplaceAll(a + b, c, with) == h + ReplaceAll(a[1..] + b, c, with);
      assert ReplaceAll(a, c, with) == h + ReplaceAll(a[1..], c, with);
    } else {
      assert a + b == b;
    }
  }

  lemma {:induction false} ReplaceAllAbsent(s: string, c: char, with: string)
    requires c !in s
    ensures ReplaceAll(s, c, with) == s
  {
    if s != "" {
      ReplaceAllAbsent(s[1..], c, with);
    }
  }

  /** Splitting on a character and joining with `with` replaces every occurrence of the character. */
  lemma {:induction false} JoinSplitIsReplaceAll(s: string, c: char, with: string)
    ensures Join(Split(s, [c]), with) == ReplaceAll(s, c, with)
    decreases |s|
  {
    var i := Index(s, [c]);
    if i < 0 {
      ContainsChar(s, c);
      ReplaceAllAbsent(s, c, with);
    } else {
      var head, tail := s[..i], s[i + 1..];
      NoMatchBefore(s, [c], i);
      ContainsChar(head, c);
      MatchAtChar(s, c, i);
      assert s == head + [c] + tail;
      var rest := Split(tail, [c]);
      assert Split(s, [c]) == [head] + rest;
      assert Join([head] + rest, with) == head + with + Join(rest, with);
      JoinSplitIsReplaceAll(tail, c, with);
      ReplaceAllConcat(head + [c], tail, c, with);
      ReplaceAllConcat(head, [c], c, with);
      ReplaceAllAbsent(head, c, with);
      assert ReplaceAll([c], c, with) == with;
    }
  }

  /** strings.TrimLeft with a one-character cutset: drops every leading `c`. */
  function TrimLeft(s: string, c: char): (r: string)
    ensures |r| <= |s|
    ensures r == "" || r[0] != c
  {
    if s != "" && s[0] == c then TrimLeft(s[1..], c) else s
  }

  /** TrimLeft removes a run of `c` from the front and nothing else. */
  lemma {:induction false} TrimLeftDropsPrefix(s: string, c: char)
    ensures s[|s| - |TrimLeft(s, c)|..] == TrimLeft(s, c)
    ensures forall j :: 0 <= j < |s| - |TrimLeft(s, c)| ==> s[j] == c
    decreases |s|
  {
    var r := TrimLeft(s, c);
    if s != "" && s[0] == c {
      var t := s[1..];
      assert r == TrimLeft(t, c);
      TrimLeftDropsPrefix(t, c);
      assert t[|t| - |r|..] == s[|s| - |r|..];
      forall j | 0 <= j < |s| - |r|
        ensures s[j] == c
      {
        if j > 0 {
          assert s[j] == t[j - 1];
        }
      }
    }
  }

  /** unicode.IsSpace, the separator predicate of strings.Fields. */
  predicate IsSpace(c: char) {
    c == '\t' || c == '\n' || c == '\U{0B}' || c == '\U{0C}' || c == '\r' || c == ' '
    || c == '\U{85}' || c == '\U{A0}' || c == '\U{1680}' || ('\U{2000}' <= c <= '\U{200A}')
    || c == '\U{2028}' || c == '\U{2029}' || c == '\U{202F}' || c == '\U{205F}' || c == '\U{3000}'
  }

  predicate NoSpace(w: string) {
    forall j :: 0 <= j < |w| ==> !IsSpace(w[j])
  }

  /** The end of the run of non-space characters starting at `from`. */
  function WordEnd(s: string, from: nat): (n: nat)
    requires from <= |s|
    ensures from <= n <= |s| && NoSpace(s[from..n])
    ensures n < |s| ==> IsSpace(s[n])
    decreases |s| - from
  {
    if from == |s| || IsSpace(s[from]) then from else WordEnd(s, from + 1)
  }

  /** strings.Fields: the maximal runs of non-space characters, in order. */
  function Fields(s: string): (r: seq<string>)
    ensures forall i :: 0 <= i < |r| ==> r[i] != "" && NoSpace(r[i])
    decreases |s|
  {
    if s == "" then []
    else if IsSpace(s[0]) then Fields(s[1..])
    else
      var n := WordEnd(s, 0);
      [s[..n]] + Fields(s[n..])
  }

  /** Fields undoes a join with single spaces of non-empty, space-free words. */
  lemma {:induction false} FieldsOfJoin(words: seq<string>)
    requires forall i :: 0 <= i < |words| ==> words[i] != "" && NoSpace(words[i])
    ensures Fields(Join(words, " ")) == words
  {
    if |words| == 1 {
      var w := words[0];
      assert WordEnd(w, 0) == |w| by { WordEndOfWord(w, "", 0); }
      assert w[..|w|] == w;
    } else if |words| > 1 {
      var w, rest := words[0], Join(words[1..], " ");
      var s := w + (" " + rest);
      assert Join(words, " ") == s;
      WordEndOfWord(w, " " + rest, 0);
      assert s[0] == w[0] && !IsSpace(s[0]);
      assert s[..|w|] == w;
      assert s[|w|..] == " " + rest;
      assert Fields(s) == [w] + Fields(" " + rest);
      assert (" " + rest)[1..] == rest;
      assert Fields(" " + rest) == Fields(rest);
      FieldsOfJoin(words[1..]);
    }
  }

  lemma {:induction false} WordEndOfWord(w: string, rest: string, from: nat)
    requires from <= |w| && NoSpace(w) && (rest == "" || IsSpace(rest[0]))
    ensures WordEnd(w + rest, from) == |w|
    decreases |w| - from
  {
    var s := w + rest;
    if from < |w| {
      assert s[from] == w[from];
      WordEndOfWord(w, rest, from + 1);
    } else if rest != "" {
      assert s[from] == rest[0];
    }
  }

  /** The marker-free test: a word is split out of `text` only if the text contains it. */
  lemma FieldContainsImpliesText(s: string, t: string)
    requires t != "" && exists i :: 0 <= i < |Fields(s)| && Contains(Fields(s)[i], t)
    ensures Contains(s, t)
  {
    var i :| 0 <= i < |Fields(s)| && Contains(Fields(s)[i], t);
    FieldInText(s, t, i);
  }

  /** Field `i` of `s` contains `t`, so `s` does. */
  lemma {:induction false} FieldInText(s: string, t: string, i: nat)
    requires i < |Fields(s)| && Contains(Fields(s)[i], t)
    ensures Contains(s, t)
    decreases |s|, 1
  {
    if IsSpace(s[0]) {
      FieldAfterSpaceInText(s, t, i);
    } else if i == 0 {
      FirstFieldInText(s, t);
    } else {
      LaterFieldInText(s, t, i);
    }
  }

  lemma {:induction false} FieldAfterSpaceInText(s: string, t: string, i: nat)
    requires s != "" && IsSpace(s[0]) && i < |Fields(s)| && Contains(Fields(s)[i], t)
    ensures Contains(s, t)
    decreases |s|, 0
  {
    assert Fields(s) == Fields(s[1..]);
    FieldInText(s[1..], t, i);
    assert s == s[..1] + s[1..];
    var k := Index(s[1..], t);
    MatchAtShift(s[..1], s[1..], t, k);
    ContainsAt(s, t, 1 + k);
  }

  lemma FirstFieldInText(s: string, t: string)
    requires s != "" && !IsSpace(s[0]) && Contains(Fields(s)[0], t)
    ensures Contains(s, t)
  {
    var n := WordEnd(s, 0);
    assert Fields(s)[0] == s[..n];
    assert s == s[..n] + s[n..];
    var k := Index(s[..n], t);
    MatchAtExtend(s[..n], s[n..], t, k);
    ContainsAt(s, t, k);
  }

  lemma {:induction false} LaterFieldInText(s: string, t: string, i: nat)
    requires s != "" && !IsSpace(s[0]) && 0 < i < |Fields(s)| && Contains(Fields(s)[i], t)
    ensures Contains(s, t)
    decreases |s|, 0
  {
    var n := WordEnd(s, 0);
    assert Fields(s) == [s[..n]] + Fields(s[n..]);
    assert Fields(s[n..])[i - 1] == Fields(s)[i];
    FieldInText(s[n..], t, i - 1);
    assert s == s[..n] + s[n..];
    var k := Index(s[n..], t);
    MatchAtShift(s[..n], s[n..], t, k);
    ContainsAt(s, t, n + k);
  }

  predicate IsDigit(c: char) {
    '0' <= c <= '9'
  }

  predicate AllDigits(s: string) {
    forall j :: 0 <= j < |s| ==> IsDigit(s[j])
  }

  /** The value of a string of decimal digits, most significant first. */
  function DigitsValue(s: string): nat
    requires AllDigits(s)
  {
    if s == "" then 0
    else DigitsValue(s[..|s| - 1]) * 10 + (s[|s| - 1] as int - '0' as int)
  }

  /**
   * strconv.Atoi: an optional sign followed by at least one decimal digit.
   * Anything else is a syntax error (None). Out-of-range values are not modelled.
   */
  function Atoi(s: string): Option<int> {
    if s == "" then None
    else if s[0] == '+' || s[0] == '-' then
      var digits := s[1..];
      if digits != "" && AllDigits(digits) then
        var v: int := DigitsValue(digits);
        Some(if s[0] == '-' then -v else v)
      else None
    else if AllDigits(s) then Some(DigitsValue(s))
    else None
  }

  function DigitChar(d: nat): char
    requires d < 10
  {
    ('0' as int + d) as char
  }

  /** The decimal digits of a natural number, without leading zeros. */
  function NatToDecimal(n: nat): (r: string)
    ensures r != "" && AllDigits(r) && DigitsValue(r) == n
    ensures r[0] == '0' ==> n == 0
  {
    if n < 10 then [DigitChar(n)]
    else
      var prefix := NatToDecimal(n / 10);
      var r := prefix + [DigitChar(n % 10)];
      assert r[..|r| - 1] == prefix;
      r
  }

  /** strconv.Itoa, which is also what fmt's %d verb prints: Atoi reads it back. */
  function Itoa(n: int): (r: string)
    ensures r != "" && Atoi(r) == Some(n)
  {
    if n < 0 then
      var r := "-" + NatToDecimal(-n);
      assert r[1..] == NatToDecimal(-n);
      r
    else NatToDecimal(n)
  }

  function DropCR(line: string): string {
    if line != "" && line[|line| - 1] == '\r' then line[..|line| - 1] else line
  }

  /**
   * The lines bufio.Scanner yields with its default ScanLines splitter: text
   * between newlines, one trailing carriage return removed, and a last line
   * without a newline kept when it is not empty.
   */
  function ScanLines(data: string): (r: seq<string>)
    ensures forall i :: 0 <= i < |r| ==> '\n' !in r[i]
    ensures |r| <= |data|
    decreases |data|
  {
    if data == "" then []
    else
      var i := Index(data, "\n");
      if i < 0 then
        ContainsChar(data, '\n');
        [DropCR(data)]
      else
        NoMatchBefore(data, "\n", i);
        ContainsChar(data[..i], '\n');
        MatchAtChar(data, '\n', i);
        [DropCR(data[..i])] + ScanLines(data[i + 1..])
  }

  /** Each line followed by a newline, as a tool prints them. */
  function Terminated(lines: seq<string>): string {
    if lines == [] then "" else lines[0] + "\n" + Terminated(lines[1..])
  }

  predicate PlainLine(line: string) {
    '\n' !in line && (line == "" || line[|line| - 1] != '\r')
  }

  /** Scanning newline-terminated lines gives the lines back. */
  lemma {:induction false} ScanTerminated(lines: seq<string>)
    requires forall i :: 0 <= i < |lines| ==> PlainLine(lines[i])
    ensures ScanLines(Terminated(lines)) == lines
  {
    if lines != [] {
      var line, rest := lines[0], Terminated(lines[1..]);
      var data := line + "\n" + rest;
      NoEarlyMatchChar(line, '\n');
      IndexAfterPiece(line, "\n", rest);
      assert data[..|line|] == line;
      assert data[|line| + 1..] == rest;
      ScanTerminated(lines[1..]);
    }
  }

  /** Number of occurrences of the character `c` in `s`. */
  function Count(s: string, c: char): nat {
    if s == "" then 0 else (if s[0] == c then 1 else 0) + Count(s[1..], c)
  }

  lemma {:induction false} CountConcat(a: string, b: string, c: char)
    ensures Count(a + b, c) == Count(a, c) + Count(b, c)
  {
    if a != "" {
      assert (a + b)[0] == a[0];
      assert (a + b)[1..] == a[1..] + b;
      CountConcat(a[1..], b, c);
    } else {
      assert a + b == b;
    }
  }

  lemma {:induction false} CountAbsent(s: string, c: char)
    ensures c !in s <==> Count(s, c) == 0
  {
    if s != "" {
      CountAbsent(s[1..], c);
      assert s == [s[0]] + s[1..];
    }
  }

  /** SplitN on one character yields one more piece than there are cuts, up to `n`. */
  lemma SplitNCount(s: string, c: char, n: nat)
    requires n >= 1
    ensures |SplitN(s, [c], n)| == if Count(s, c) + 1 < n then Count(s, c) + 1 else n
  {
    SplitNCountAtMost(s, c, n);
    SplitNCountReached(s, c, n);
    CappedCount(|SplitN(s, [c], n)|, Count(s, c), n);
  }

  lemma CappedCount(pieces: nat, count: nat, n: nat)
    requires pieces <= n && pieces <= count + 1
    requires pieces == n || pieces >= count + 1
    ensures pieces == if count + 1 < n then count + 1 else n
  {
  }

  /** Every piece but the first follows an occurrence of the character. */
  lemma {:induction false} SplitNCountAtMost(s: string, c: char, n: nat)
    requires n >= 1
    ensures |SplitN(s, [c], n)| <= Count(s, c) + 1
    decreases n
  {
    var cut, tail := SplitNCountStep(s, c, n);
    if cut {
      SplitNCountAtMost(tail, c, n - 1);
    }
  }

  /** SplitN stops cutting only when the pieces reach `n` or the occurrences run out. */
  lemma {:induction false} SplitNCountReached(s: string, c: char, n: nat)
    requires n >= 1
    ensures |SplitN(s, [c], n)| == n || |SplitN(s, [c], n)| >= Count(s, c) + 1
    decreases n, 1
  {
    var cut, tail := SplitNCountStep(s, c, n);
    if cut {
      SplitNCountReachedCut(s, c, n, tail);
    }
  }

  lemma {:induction false} SplitNCountReachedCut(s: string, c: char, n: nat, tail: string)
    requires n > 1 && |SplitN(s, [c], n)| == 1 + |SplitN(tail, [c], n - 1)|
    requires Count(s, c) == 1 + Count(tail, c)
    ensures |SplitN(s, [c], n)| == n || |SplitN(s, [c], n)| >= Count(s, c) + 1
    decreases n, 0
  {
    SplitNCountReached(tail, c, n - 1);
    ReachedStep(|SplitN(s, [c], n)|, |SplitN(tail, [c], n - 1)|, Count(s, c), Count(tail, c), n);
  }

  lemma ReachedStep(pieces: nat, rest: nat, count: nat, restCount: nat, n: nat)
    requires n > 1 && pieces == 1 + rest && count == 1 + restCount
    requires rest == n - 1 || rest >= restCount + 1
    ensures pieces == n || pieces >= count + 1
  {
  }

  /**
   * One step of SplitN on a character: either nothing is cut, or a piece and
   * the character go and the rest is split into one piece fewer.
   */
  lemma SplitNCountStep(s: string, c: char, n: nat) returns (cut: bool, tail: string)
    requires n >= 1
    ensures !cut ==> |SplitN(s, [c], n)| == 1 && (n == 1 || Count(s, c) == 0)
    ensures cut ==> n > 1 && |SplitN(s, [c], n)| == 1 + |SplitN(tail, [c], n - 1)|
    ensures cut ==> Count(s, c) == 1 + Count(tail, c)
  {
    var i := Index(s, [c]);
    cut := n > 1 && i >= 0;
    if n == 1 {
      tail := s;
    } else if cut {
      tail := s[i + 1..];
      SplitNCut(s, c, n);
    } else {
      tail := s;
      ContainsChar(s, c);
      CountAbsent(s, c);
    }
  }

  lemma SplitNCut(s: string, c: char, n: nat)
    requires n > 1 && Index(s, [c]) >= 0
    ensures var i := Index(s, [c]);
      SplitN(s, [c], n) == [s[..i]] + SplitN(s[i + 1..], [c], n - 1) &&
      Count(s, c) == 1 + Count(s[i + 1..], c)
  {
    var i := Index(s, [c]);
    var head, tail := s[..i], s[i + 1..];
    NoMatchBefore(s, [c], i);
    ContainsChar(head, c);
    CountAbsent(head, c);
    MatchAtChar(s, c, i);
    assert s == head + ([c] + tail);
    CountConcat(head, [c] + tail, c);
    assert ([c] + tail)[1..] == tail;
  }
}
