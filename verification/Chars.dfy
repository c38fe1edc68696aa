/** Characters and the few string operations that the Python tooling relies on,
    with the ASCII character classes of Python 2 regular expressions. */
module Chars {

  datatype Option<+T> = None | Some(value: T)

  /** Python's `\s`: blank, tab, newline, vertical tab, form feed, carriage return. */
  predicate IsSpace(c: char) {
    c == ' ' || '\t' <= c <= '\r'
  }

  /** Python's `\w`. */
  predicate IsWord(c: char) {
    'a' <= c <= 'z' || 'A' <= c <= 'Z' || '0' <= c <= '9' || c == '_'
  }

  predicate StartsWith(s: string, prefix: string) {
    |prefix| <= |s| && s[..|prefix|] == prefix
  }

  predicate EndsWith(s: string, suffix: string) {
    |suffix| <= |s| && s[|s| - |suffix|..] == suffix
  }

  function RStrip(s: string): string {
    if s != [] && IsSpace(s[|s| - 1]) then RStrip(s[..|s| - 1]) else s
  }

  lemma {:induction false} RStripMeaning(s: string)
    ensures RStrip(s) <= s
    ensures RStrip(s) != [] ==> !IsSpace(RStrip(s)[|RStrip(s)| - 1])
    ensures forall k | |RStrip(s)| <= k < |s| :: IsSpace(s[k])
  {
    if s != [] && IsSpace(s[|s| - 1]) {
      RStripMeaning(s[..|s| - 1]);
    }
  }

  function LStrip(s: string): string {
    if s != [] && IsSpace(s[0]) then LStrip(s[1..]) else s
  }

  function Strip(s: string): (r: string)
  {
    LStrip(RStrip(s))
  }

  /** `line[i:]`, which Python allows for positions past the end. */
  function From(s: string, i: nat): (r: string)
  {
    if i <= |s| then s[i..] else ""
  }

  /** `needle` occurs in `s` at position `k`. */
  predicate At(s: string, needle: string, k: nat) {
    k + |needle| <= |s| && s[k..k + |needle|] == needle
  }

  /** The least position at or after `i` where `needle` occurs, or -1: `s.find(needle, i)`. */
  function Find(s: string, needle: string, i: nat): (r: int)
    ensures r == -1 || (i <= r && At(s, needle, r))
    ensures forall k: nat | i <= k && (r == -1 || k < r) :: !At(s, needle, k)
    decreases |s| - i
  {
    if i + |needle| > |s| then -1
    else if At(s, needle, i) then i
    else Find(s, needle, i + 1)
  }

  function Count(s: string, c: char): nat {
    if s == [] then 0 else (if s[0] == c then 1 else 0) + Count(s[1..], c)
  }

  /** What a trailing `(.*)$` captures: everything, a single final newline excepted;
      no match if there is a newline anywhere else. */
  function DotStar(s: string): (r: Option<string>)
    ensures r.Some? ==> |r.value| <= |s|
  {
    if '\n' !in s then Some(s)
    else if '\n' !in s[..|s| - 1] then Some(s[..|s| - 1])
    else None
  }

  /** Python's `all(...)` over a string. */
  predicate All(s: string, p: char -> bool) {
    forall k | 0 <= k < |s| :: p(s[k])
  }

  /** Length of the longest prefix of `s` whose characters satisfy `p`. */
  function Span(s: string, p: char -> bool): (n: nat)
    ensures n <= |s| && All(s[..n], p)
    ensures n < |s| ==> !p(s[n])
  {
    if s != [] && p(s[0]) then
      assert s[..1 + Span(s[1..], p)] == [s[0]] + s[1..][..Span(s[1..], p)];
      1 + Span(s[1..], p)
    else 0
  }

  // ----- what these operations mean

  predicate Blanks(s: string) {
    forall k | 0 <= k < |s| :: IsSpace(s[k])
  }

  /** The blanks at the start of a string, and the rest. */
  lemma {:induction false} LStripMeans(s: string) returns (a: string)
    ensures Blanks(a) && s == a + LStrip(s)
    ensures LStrip(s) != [] ==> !IsSpace(LStrip(s)[0])
  {
    if s != [] && IsSpace(s[0]) {
      var b := LStripMeans(s[1..]);
      a := [s[0]] + b;
      assert s == [s[0]] + s[1..];
    } else {
      a := [];
    }
  }

  lemma {:induction false} LStripIs(a: string, t: string)
    requires Blanks(a) && (t != [] ==> !IsSpace(t[0]))
    ensures LStrip(a + t) == t
  {
    if a == [] {
      assert a + t == t;
    } else {
      assert (a + t)[1..] == a[1..] + t;
      LStripIs(a[1..], t);
    }
  }

  lemma {:induction false} RStripIs(t: string, b: string)
    requires Blanks(b) && (t != [] ==> !IsSpace(t[|t| - 1]))
    ensures RStrip(t + b) == t
  {
    if b == [] {
      assert t + b == t;
    } else {
      assert (t + b)[..|t + b| - 1] == t + b[..|b| - 1];
      RStripIs(t, b[..|b| - 1]);
    }
  }

  predicate Tight(t: string) {
    t != [] ==> !IsSpace(t[0]) && !IsSpace(t[|t| - 1])
  }

  /** Strip takes the blanks from both ends, and nothing else. */
  lemma StripIs(a: string, t: string, b: string)
    requires Blanks(a) && Tight(t) && Blanks(b)
    ensures Strip(a + t + b) == t
  {
    if t == [] {
      assert a + t + b == [] + (a + b);
      RStripIs([], a + b);
    } else {
      assert (a + t)[|a + t| - 1] == t[|t| - 1];
      RStripIs(a + t, b);
      LStripIs(a, t);
    }
  }

  lemma StripMeans(s: string) returns (a: string, b: string)
    ensures Blanks(a) && Tight(Strip(s)) && Blanks(b) && s == a + Strip(s) + b
  {
    RStripMeaning(s);
    var r := RStrip(s);
    a := LStripMeans(r);
    b := s[|r|..];
    assert Strip(s) != [] ==> Strip(s)[|Strip(s)| - 1] == r[|r| - 1];
  }

  lemma SpanIs(s: string, p: char -> bool, n: nat)
    requires n <= |s| && (forall k | 0 <= k < n :: p(s[k])) && (n < |s| ==> !p(s[n]))
    ensures Span(s, p) == n
  {
    var m := Span(s, p);
    assert forall k | 0 <= k < m :: s[..m][k] == s[k] && p(s[k]);
  }

  lemma SpanParts(s: string, p: char -> bool)
    ensures var n := Span(s, p);
            && s == s[..n] + s[n..]
            && (forall k | 0 <= k < n :: p(s[k]))
            && (s[n..] != [] ==> !p(s[n..][0]))
  {
    var n := Span(s, p);
    assert forall k | 0 <= k < n :: s[..n][k] == s[k];
  }

  lemma {:induction false} CountIs(s: string, c: char)
    ensures Count(s, c) == multiset(s)[c]
  {
    if s != [] {
      CountIs(s[1..], c);
      assert s == [s[0]] + s[1..];
    }
  }

  /** The first occurrence of a string of one character. */
  lemma FindChar(s: string, c: char)
    ensures var r := Find(s, [c], 0);
            if r == -1 then c !in s else 0 <= r < |s| && s[r] == c && c !in s[..r]
  {
    var r := Find(s, [c], 0);
    forall k: nat | k < |s|
      ensures At(s, [c], k) <==> s[k] == c
    {
      assert s[k..k + 1] == [s[k]];
    }
  }

  lemma FindCharIs(a: string, c: char, b: string)
    requires c !in a
    ensures var s := a + ([c] + b);
            Find(s, [c], 0) == |a| && s[..|a|] == a && s[|a| + 1..] == b
  {
    var s := a + ([c] + b);
    assert s[|a|..|a| + 1] == [c] && At(s, [c], |a|);
    forall k: nat | k < |a|
      ensures !At(s, [c], k)
    {
      assert s[k..k + 1] == [a[k]];
    }
  }
}
