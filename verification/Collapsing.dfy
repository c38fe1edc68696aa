/** What collapsing does to a line: which characters are escapes, which are strings, character
    literals and numbers with digit separators, and what is left of each. */
module Collapsing {
  import opened Chars
  import opened Cleansing

  // ----- escapes

  /** A backslash and a letter or sign, digits, or `x` and hexadecimal digits. */
  predicate IsEscape(e: string) {
    && |e| >= 2
    && e[0] == '\\'
    && (|| (|e| == 2 && e[1] in "abfnrtv?\"\\'")
        || (forall k | 1 <= k < |e| :: IsDigit(e[k]))
        || (|e| >= 3 && e[1] == 'x' && forall k | 2 <= k < |e| :: IsHex(e[k])))
  }

  /** No prefix of `s` that is longer than `n` is an escape. */
  predicate NoLonger(s: string, n: nat) {
    forall k | n < k <= |s| :: !IsEscape(s[..k])
  }

  lemma EscapeMeans(s: string)
    ensures var n := EscapeLength(s); NoLonger(s, n) && (n > 0 ==> IsEscape(s[..n]))
  {
    if |s| >= 2 && s[0] == '\\' {
      if EscapeLength(s) > 0 {
        EscapeFound(s);
      }
      hide EscapeLength, IsEscape;
      forall k | EscapeLength(s) < k <= |s|
        ensures !IsEscape(s[..k])
      {
        NotLonger(s, k);
      }
    }
  }

  lemma EscapeFound(s: string)
    requires EscapeLength(s) > 0
    ensures IsEscape(s[..EscapeLength(s)])
  {
    SpanParts(s[1..], IsDigit);
    SpanParts(s[2..], IsHex);
    hide Span;
    var n := EscapeLength(s);
    var e := s[..n];
    if IsDigit(s[1]) {
      forall k | 1 <= k < n
        ensures IsDigit(e[k])
      {
        assert e[k] == s[1..][k - 1];
      }
    } else if s[1] == 'x' {
      forall k | 2 <= k < n
        ensures IsHex(e[k])
      {
        assert e[k] == s[2..][k - 2];
      }
    }
  }

  lemma NotLonger(s: string, k: nat)
    requires |s| >= 2 && s[0] == '\\' && EscapeLength(s) < k <= |s|
    ensures !IsEscape(s[..k])
  {
    var e := s[..k];
    if k >= 2 {
      assert e[1] == s[1];
      var d, h := Span(s[1..], IsDigit), Span(s[2..], IsHex);
      if 1 + d < k {
        assert e[1 + d] == s[1..][d];
      }
      if 2 + h < k {
        assert e[2 + h] == s[2..][h];
      }
      if k >= 3 {
        assert e[2] == s[2];
      }
    }
  }

  lemma EscapeIs(s: string, n: nat)
    requires n <= |s| && NoLonger(s, n) && (n > 0 ==> IsEscape(s[..n]))
    ensures EscapeLength(s) == n
  {
    hide EscapeLength, IsEscape;
    EscapeMeans(s);
  }

  /** A character that is kept, or an escape. */
  datatype Item = Kept(c: char) | Dropped(escape: string)

  function Written(items: seq<Item>): string {
    if items == [] then ""
    else
      var first := match items[0] case Kept(c) => [c] case Dropped(e) => e;
      first + Written(items[1..])
  }

  function Left(items: seq<Item>): string {
    if items == [] then ""
    else
      var first := match items[0] case Kept(c) => [c] case Dropped(_) => "";
      first + Left(items[1..])
  }

  /** The items are what the text reads as from the left: no escape begins at a character that
      is kept, and no escape could be longer. */
  ghost predicate Reads(items: seq<Item>) {
    items != [] ==>
      && Reads(items[1..])
      && match items[0]
         case Kept(_) => NoLonger(Written(items), 0)
         case Dropped(e) => IsEscape(e) && NoLonger(Written(items), |e|)
  }

  /** Every text reads in this way. */
  lemma {:induction false} ReadEscapes(s: string) returns (items: seq<Item>)
    ensures Reads(items) && Written(items) == s
    decreases |s|
  {
    if s == [] {
      items := [];
    } else {
      hide EscapeLength, NoLonger, IsEscape;
      EscapeMeans(s);
      var n := EscapeLength(s);
      var rest := ReadEscapes(if n > 0 then s[n..] else s[1..]);
      items := [if n > 0 then Dropped(s[..n]) else Kept(s[0])] + rest;
      assert items[1..] == rest;
      assert s == if n > 0 then s[..n] + s[n..] else [s[0]] + s[1..];
    }
  }

  /** Escapes are deleted, and nothing else. */
  lemma {:induction false} DropEscapesIs(items: seq<Item>)
    requires Reads(items)
    ensures DropEscapes(Written(items)) == Left(items)
  {
    if items != [] {
      hide NoLonger, IsEscape, EscapeLength;
      DropEscapesIs(items[1..]);
      var s := Written(items);
      match items[0] {
        case Kept(c) =>
          EscapeIs(s, 0);
          assert s[1..] == Written(items[1..]);
        case Dropped(e) =>
          assert s[..|e|] == e && s[|e|..] == Written(items[1..]);
          EscapeNonempty(e);
          EscapeIs(s, |e|);
      }
    }
  }

  lemma EscapeNonempty(e: string)
    requires IsEscape(e)
    ensures |e| >= 2
  {
  }

  // ----- digit separators

  const LEADS := ["0", "0b", "0B", "0x", "0X", "1", "2", "3", "4", "5", "6", "7", "8", "9"]

  ghost predicate NumberAs(h: string, b: string, lead: string, digits: string) {
    && h == b + (lead + digits)
    && (b == [] || !IsWord(b[|b| - 1]))
    && lead in LEADS
    && forall k | 0 <= k < |digits| :: IsHex(digits[k])
  }

  lemma NumberRead(h: string, i: nat) returns (lead: string, digits: string)
    requires i < |h| && (i == 0 || !IsWord(h[i - 1])) && NumberFrom(h, i)
    ensures NumberAs(h, h[..i], lead, digits)
  {
    var n := if h[i] == '0' && All(h[i + 1..], IsHex) then 1 else if h[i] == '0' then 2 else 1;
    lead, digits := h[i..i + n], h[i + n..];
    assert h == h[..i] + (lead + digits);
    if n == 1 {
      assert lead == [h[i]];
    } else {
      assert lead == [h[i], h[i + 1]];
    }
    LeadIs(lead);
  }

  lemma LeadIs(lead: string)
    requires |lead| == 1 ==> '0' <= lead[0] <= '9'
    requires |lead| == 2 ==> lead[0] == '0' && lead[1] in "bBxX"
    requires 1 <= |lead| <= 2
    ensures lead in LEADS
  {
    if |lead| == 1 {
      assert lead == [lead[0]];
      assert lead[0] == '0' || lead[0] == '1' || lead[0] == '2' || lead[0] == '3' || lead[0] == '4'
          || lead[0] == '5' || lead[0] == '6' || lead[0] == '7' || lead[0] == '8' || lead[0] == '9';
    } else {
      assert lead == [lead[0], lead[1]];
    }
  }

  lemma NumberFound(h: string, b: string, lead: string, digits: string)
    requires NumberAs(h, b, lead, digits)
    ensures EndsInNumber(h)
  {
    var i := |b|;
    LeadMeans(lead);
    assert h[i] == lead[0] && h[i + |lead|..] == digits;
    if |lead| == 2 {
      assert h[i + 1] == lead[1];
    }
    assert NumberFrom(h, i);
  }

  lemma LeadMeans(lead: string)
    requires lead in LEADS
    ensures 1 <= |lead| <= 2
    ensures |lead| == 1 ==> '0' <= lead[0] <= '9'
    ensures |lead| == 2 ==> lead[0] == '0' && lead[1] in "bBxX"
  {
  }

  /** A quote is taken for a digit separator when the text before it ends in a number that is
      not the end of a word: `0`, `0b`, `0x` or a digit, and hexadecimal digits. */
  lemma DigitsIff(h: string)
    requires '\n' !in h
    ensures DigitsBefore(h) <==> exists b, lead, digits :: NumberAs(h, b, lead, digits)
  {
    hide NumberAs, NumberFrom;
    if DigitsBefore(h) {
      var i: nat :| i < |h| && (i == 0 || !IsWord(h[i - 1])) && NumberFrom(h, i);
      var lead, digits := NumberRead(h, i);
    }
    forall b, lead, digits | NumberAs(h, b, lead, digits)
      ensures DigitsBefore(h)
    {
      NumberFound(h, b, lead, digits);
    }
  }

  function Separated(groups: seq<string>): string {
    if groups == [] then "" else "'" + (groups[0] + Separated(groups[1..]))
  }

  function Joined(groups: seq<string>): string {
    if groups == [] then "" else groups[0] + Joined(groups[1..])
  }

  predicate Word(s: string) {
    forall k | 0 <= k < |s| :: IsWord(s[k])
  }

  predicate Groups(groups: seq<string>) {
    forall k | 0 <= k < |groups| :: groups[k] != [] && Word(groups[k])
  }

  /** The number does not go on with `rest`. */
  predicate NumberEnds(rest: string) {
    && (rest != [] ==> !IsWord(rest[0]))
    && (|rest| >= 2 && rest[0] == '\'' ==> !IsWord(rest[1]))
  }

  lemma {:induction false} WordLength(w: string, s: string)
    requires Word(w)
    ensures LiteralLength(w + s) == |w| + LiteralLength(s)
    decreases |w|
  {
    if w == [] {
      assert w + s == s;
    } else {
      assert (w + s)[1..] == w[1..] + s && (w + s)[0] == w[0];
      WordLength(w[1..], s);
    }
  }

  lemma GroupLength(g: string, s: string)
    requires g != [] && Word(g)
    ensures LiteralLength("'" + (g + s)) == 1 + |g| + LiteralLength(s)
  {
    var all := "'" + (g + s);
    assert all[0] == '\'' && all[1] == g[0] && all[2..] == g[1..] + s;
    WordLength(g[1..], s);
  }

  lemma {:induction false} LiteralIs(groups: seq<string>, rest: string)
    requires Groups(groups) && NumberEnds(rest)
    ensures LiteralLength(Separated(groups) + rest) == |Separated(groups)|
    decreases |groups|
  {
    if groups == [] {
      assert Separated(groups) + rest == rest;
    } else {
      hide LiteralLength, NumberEnds, Word;
      var s := Separated(groups[1..]) + rest;
      LiteralIs(groups[1..], rest);
      GroupLength(groups[0], s);
      assert Separated(groups) + rest == "'" + (groups[0] + s);
    }
  }

  lemma {:induction false} WordKept(w: string, s: string)
    requires Word(w)
    ensures WithoutQuotes(w + s) == w + WithoutQuotes(s)
    decreases |w|
  {
    if w == [] {
      assert w + s == s;
    } else {
      assert (w + s)[1..] == w[1..] + s && (w + s)[0] == w[0];
      WordKept(w[1..], s);
    }
  }

  lemma {:induction false} SeparatorsGo(groups: seq<string>)
    requires Groups(groups)
    ensures WithoutQuotes(Separated(groups)) == Joined(groups)
    decreases |groups|
  {
    if groups != [] {
      SeparatorsGo(groups[1..]);
      WordKept(groups[0], Separated(groups[1..]));
      assert Separated(groups)[1..] == groups[0] + Separated(groups[1..]);
    }
  }

  // ----- the pieces of a line

  /** Text and a string or character literal after it, or text that ends in digits and the
      groups of digits that quotes separate from it. */
  datatype Piece = Literal(text: string, quote: char, content: string) | Number(text: string, groups: seq<string>)

  function Source(p: Piece): string {
    match p
    case Literal(text, q, content) => text + ([q] + (content + [q]))
    case Number(text, groups) => text + Separated(groups)
  }

  /** Strings and character literals are emptied; numbers lose their separators. */
  function Short(p: Piece): string {
    match p
    case Literal(text, q, _) => text + [q, q]
    case Number(text, groups) => text + Joined(groups)
  }

  ghost predicate IsPiece(p: Piece, rest: string) {
    && QuoteFree(p.text)
    && match p
       case Literal(text, q, content) => IsQuote(q) && q !in content && (q == '\'' ==> !DigitsBefore(text))
       case Number(text, groups) =>
         && DigitsBefore(text)
         && Groups(groups)
         && NumberEnds(rest)
         && (groups == [] ==> rest != [] && rest[0] == '\'')
  }

  /** Text without quotes, or up to a quote that has no partner. */
  ghost predicate IsEnd(s: string) {
    QuoteFree(s) || exists text, q, tail :: Unpartnered(s, text, q, tail)
  }

  ghost predicate Unpartnered(s: string, text: string, q: char, tail: string) {
    s == text + ([q] + tail) && QuoteFree(text) && IsQuote(q) && q !in tail && (q == '\'' ==> !DigitsBefore(text))
  }

  function Whole(ps: seq<Piece>, end: string): string {
    if ps == [] then end else Source(ps[0]) + Whole(ps[1..], end)
  }

  function Shortened(ps: seq<Piece>, end: string): string {
    if ps == [] then end else Short(ps[0]) + Shortened(ps[1..], end)
  }

  ghost predicate Pieces(ps: seq<Piece>, end: string) {
    if ps == [] then IsEnd(end) else IsPiece(ps[0], Whole(ps[1..], end)) && Pieces(ps[1..], end)
  }

  lemma FirstQuoteIs(text: string, q: char, tail: string)
    requires QuoteFree(text) && IsQuote(q) && '\n' !in tail
    ensures var s := text + ([q] + tail);
            FirstQuote(s) == Some((|text|, tail)) && s[..|text|] == text && s[|text|] == q
  {
    var s := text + ([q] + tail);
    SpanIs(s, NotQuote, |text|);
    assert s[|text| + 1..] == tail;
  }

  lemma NoQuoteIs(s: string)
    requires QuoteFree(s)
    ensures FirstQuote(s).None?
  {
    SpanIs(s, NotQuote, |s|);
  }

  lemma LiteralRound(text: string, q: char, content: string, rest: string)
    requires IsPiece(Literal(text, q, content), rest) && '\n' !in content && '\n' !in rest
    ensures RoundOf(Source(Literal(text, q, content)) + rest) == Emit(text + [q, q], rest)
  {
    var tail := content + ([q] + rest);
    assert Source(Literal(text, q, content)) + rest == text + ([q] + tail);
    hide FirstQuote, DigitsBefore;
    FirstQuoteIs(text, q, tail);
    FindCharIs(content, q, rest);
  }

  lemma NumberRound(text: string, groups: seq<string>, rest: string)
    requires IsPiece(Number(text, groups), rest) && '\n' !in Separated(groups) + rest
    ensures RoundOf(Source(Number(text, groups)) + rest) == Emit(text + Joined(groups), rest)
  {
    var sep := Separated(groups);
    var all := sep + rest;
    assert all[0] == '\'';
    SeparatorsGo(groups);
    LiteralIs(groups, rest);
    hide FirstQuote, DigitsBefore, LiteralLength, WithoutQuotes, Separated, Joined, QuoteFree, Groups, NumberEnds;
    var tail := all[1..];
    assert all == "'" + tail;
    assert (text + sep) + rest == text + (['\''] + tail);
    FirstQuoteIs(text, '\'', tail);
    assert all[..|sep|] == sep && all[|sep|..] == rest;
  }

  lemma EndRound(end: string)
    requires IsEnd(end) && '\n' !in end
    ensures RoundOf(end) == Stop
  {
    hide FirstQuote, DigitsBefore, RoundAt;
    if QuoteFree(end) {
      NoQuoteIs(end);
    } else {
      var text, q, tail :| Unpartnered(end, text, q, tail);
      FirstQuoteIs(text, q, tail);
      UnpartneredStops(text, q, tail);
    }
  }

  lemma UnpartneredStops(text: string, q: char, tail: string)
    requires IsQuote(q) && q !in tail && (q == '\'' ==> !DigitsBefore(text))
    ensures RoundAt(text, q, tail) == Stop
  {
    hide DigitsBefore;
    FindChar(tail, q);
  }

  /** The collapsed line: the text around strings and character literals stays, these are
      emptied, numbers lose their digit separators, and all that follows a quote without a
      partner stays. */
  lemma {:induction false} CollapseIs(ps: seq<Piece>, end: string)
    requires Pieces(ps, end) && '\n' !in Whole(ps, end)
    ensures CollapseFrom(Whole(ps, end)) == Shortened(ps, end)
    decreases |ps|
  {
    hide RoundOf, IsPiece, IsEnd;
    RoundShrinks(Whole(ps, end));
    if ps == [] {
      EndRound(end);
    } else {
      var rest := Whole(ps[1..], end);
      CollapseIs(ps[1..], end);
      match ps[0] {
        case Literal(text, q, content) => LiteralRound(text, q, content, rest);
        case Number(text, groups) => NumberRound(text, groups, rest);
      }
    }
  }

  // ----- every line is made of such pieces

  lemma GroupStep(g: string, more: seq<string>, rest: string)
    requires g != [] && Word(g) && Groups(more)
    ensures Groups([g] + more) && Separated([g] + more) + rest == "'" + (g + (Separated(more) + rest))
  {
    hide Word;
    var groups := [g] + more;
    assert groups[1..] == more && groups[0] == g;
  }

  lemma {:induction false} ReadGroups(s: string) returns (groups: seq<string>, rest: string)
    requires s != [] ==> !IsWord(s[0])
    ensures s == Separated(groups) + rest && Groups(groups) && NumberEnds(rest)
    ensures groups == [] ==> rest == s
    decreases |s|
  {
    groups, rest := [], s;
    if |s| >= 2 && s[0] == '\'' && IsWord(s[1]) {
      var after := s[1..];
      var n := Span(after, IsWord);
      SpanParts(after, IsWord);
      var g := after[..n];
      hide Separated, Groups, Span;
      groups, rest := ReadGroups(after[n..]);
      assert g != [];
      GroupStep(g, groups, rest);
      assert s == "'" + after;
      groups := [g] + groups;
    }
  }

  lemma QuoteSplit(s: string) returns (text: string, q: char, tail: string)
    requires !QuoteFree(s)
    ensures s == text + ([q] + tail) && QuoteFree(text) && IsQuote(q)
  {
    var n := Span(s, NotQuote);
    SpanParts(s, NotQuote);
    text, q, tail := s[..n], s[n], s[n + 1..];
  }

  lemma DigitsNonempty(h: string)
    requires DigitsBefore(h)
    ensures h != []
  {
  }

  lemma Prepend(p: Piece, rest: string, ps: seq<Piece>, end: string)
    requires IsPiece(p, rest) && Pieces(ps, end) && Whole(ps, end) == rest
    ensures Pieces([p] + ps, end) && Whole([p] + ps, end) == Source(p) + rest
  {
    hide IsPiece;
    assert ([p] + ps)[1..] == ps;
  }

  lemma {:induction false} ReadPieces(s: string) returns (ps: seq<Piece>, end: string)
    ensures Pieces(ps, end) && Whole(ps, end) == s
    decreases |s|
  {
    ps, end := [], s;
    if !QuoteFree(s) {
      hide DigitsBefore, Pieces, Whole;
      var p, rest := ReadPiece(s);
      if p.None? {
        assert Pieces([], s) by { EndPieces(s); }
      } else {
        ps, end := ReadPieces(rest);
        Prepend(p.value, rest, ps, end);
        ps := [p.value] + ps;
      }
    }
  }

  lemma EndPieces(s: string)
    requires IsEnd(s)
    ensures Pieces([], s) && Whole([], s) == s
  {
  }

  lemma ReadNumber(text: string, tail: string) returns (p: Piece, rest: string)
    requires QuoteFree(text) && DigitsBefore(text)
    ensures IsPiece(p, rest) && text + (['\''] + tail) == Source(p) + rest && |rest| <= 1 + |tail|
  {
    DigitsNonempty(text);
    hide DigitsBefore, QuoteFree, Groups, NumberEnds, Separated;
    var groups;
    groups, rest := ReadGroups(['\''] + tail);
    p := Number(text, groups);
    assert text + (Separated(groups) + rest) == Source(p) + rest;
  }

  lemma ReadLiteral(text: string, q: char, tail: string) returns (p: Piece, rest: string)
    requires QuoteFree(text) && IsQuote(q) && q in tail && (q == '\'' ==> !DigitsBefore(text))
    ensures IsPiece(p, rest) && text + ([q] + tail) == Source(p) + rest && |rest| < |tail|
  {
    hide DigitsBefore, QuoteFree;
    FindChar(tail, q);
    var k := Find(tail, [q], 0);
    hide Find;
    var content := tail[..k];
    rest := tail[k + 1..];
    p := Literal(text, q, content);
    assert tail == content + ([q] + rest);
    assert text + ([q] + (content + ([q] + rest))) == (text + ([q] + (content + [q]))) + rest;
  }

  lemma ReadPiece(s: string) returns (p: Option<Piece>, rest: string)
    requires !QuoteFree(s)
    ensures p.None? ==> IsEnd(s)
    ensures p.Some? ==> IsPiece(p.value, rest) && s == Source(p.value) + rest && |rest| < |s|
  {
    var text, q, tail := QuoteSplit(s);
    hide DigitsBefore, QuoteFree, IsPiece, Source;
    p, rest := None, "";
    if q == '\'' && DigitsBefore(text) {
      DigitsNonempty(text);
      var number;
      number, rest := ReadNumber(text, tail);
      p := Some(number);
    } else if q in tail {
      var literal;
      literal, rest := ReadLiteral(text, q, tail);
      p := Some(literal);
    } else {
      assert Unpartnered(s, text, q, tail);
    }
  }

  // ----- include lines

  ghost predicate IncludeAs(line: string, a: string, b: string, c: string, open: char, name: string, close: char, rest: string) {
    && line == a + ("#" + (b + ("include" + (c + ([open] + (name + ([close] + rest)))))))
    && Blanks(a) && Blanks(b) && Blanks(c)
    && open in "<\"" && close in ">\""
    && forall k | 0 <= k < |name| :: name[k] !in ">\""
  }

  ghost predicate Includes(line: string) {
    exists a, b, c, open, name, close, rest :: IncludeAs(line, a, b, c, open, name, close, rest)
  }

  /** What stands between the blanks of an include line. */
  predicate IncludeName(v: string) {
    v != [] && (v[0] == '<' || v[0] == '"') &&
    var n := Span(v[1..], IncludedChar);
    n < |v[1..]| && DotStar(v[1..][n + 1..]).Some?
  }

  predicate IncludeWord(u: string) {
    StartsWith(u, "include") && IncludeName(LStrip(u[7..]))
  }

  lemma IncludeSteps(line: string)
    ensures IsInclude(line) <==> var t := LStrip(line); t != [] && t[0] == '#' && IncludeWord(LStrip(t[1..]))
  {
    hide LStrip, Span, DotStar;
  }

  lemma NameMeans(v: string) returns (open: char, name: string, close: char, rest: string)
    requires IncludeName(v)
    ensures v == [open] + (name + ([close] + rest)) && open in "<\"" && close in ">\""
    ensures forall k | 0 <= k < |name| :: name[k] !in ">\""
  {
    var n := Span(v[1..], IncludedChar);
    SpanParts(v[1..], IncludedChar);
    open, name, close, rest := v[0], v[1..][..n], v[1..][n], v[1..][n + 1..];
    assert v == [v[0]] + v[1..];
    assert v[1..] == name + ([close] + rest);
  }

  lemma NameIs(open: char, name: string, close: char, rest: string)
    requires open in "<\"" && close in ">\"" && '\n' !in rest
    requires forall k | 0 <= k < |name| :: name[k] !in ">\""
    ensures var v := [open] + (name + ([close] + rest)); IncludeName(v) && !IsSpace(v[0])
  {
    var v := [open] + (name + ([close] + rest));
    assert v[1..] == name + ([close] + rest);
    SpanIs(v[1..], IncludedChar, |name|);
    assert v[1..][|name| + 1..] == rest;
  }

  lemma IncludeRead(line: string)
    requires IsInclude(line)
    ensures Includes(line)
  {
    hide LStrip, IncludeName, IsInclude, IncludeAs;
    IncludeSteps(line);
    var a := LStripMeans(line);
    var t := LStrip(line);
    var b := LStripMeans(t[1..]);
    var u := LStrip(t[1..]);
    var c := LStripMeans(u[7..]);
    var open, name, close, rest := NameMeans(LStrip(u[7..]));
    IncludeJoin(line, a, t, b, u, c, open, name, close, rest);
  }

  lemma IncludeJoin(line: string, a: string, t: string, b: string, u: string, c: string, open: char, name: string, close: char, rest: string)
    requires line == a + t && t != [] && t[0] == '#' && t[1..] == b + u && StartsWith(u, "include")
    requires u[7..] == c + ([open] + (name + ([close] + rest)))
    requires Blanks(a) && Blanks(b) && Blanks(c) && open in "<\"" && close in ">\""
    requires forall k | 0 <= k < |name| :: name[k] !in ">\""
    ensures IncludeAs(line, a, b, c, open, name, close, rest)
  {
    hide Blanks, IncludedChar;
    assert t == "#" + t[1..];
    assert u == "include" + u[7..];
  }

  lemma IncludeFound(line: string, a: string, b: string, c: string, open: char, name: string, close: char, rest: string)
    requires '\n' !in line && IncludeAs(line, a, b, c, open, name, close, rest)
    ensures IsInclude(line)
  {
    var v := [open] + (name + ([close] + rest));
    var u := "include" + (c + v);
    var t := "#" + (b + u);
    assert line == a + t;
    NoNewlineAfter(a, t);
    NoNewlineAfter("#" + b, u);
    assert t == ("#" + b) + u;
    NoNewlineAfter("include" + c, v);
    assert u == ("include" + c) + v;
    NoNewlineAfter([open] + (name + [close]), rest);
    assert v == ([open] + (name + [close])) + rest;
    NameIs(open, name, close, rest);
    hide IncludeName, IsInclude, LStrip, Blanks, IncludedChar;
    LStripIs(c, v);
    assert u[7..] == c + v && StartsWith(u, "include");
    LStripIs(b, u);
    assert t[1..] == b + u;
    LStripIs(a, t);
    IncludeSteps(line);
  }

  lemma NoNewlineAfter(a: string, b: string)
    requires '\n' !in a + b
    ensures '\n' !in b
  {
    assert forall k | 0 <= k < |b| :: (a + b)[|a| + k] == b[k];
  }

  /** An include line, as text: the word between blanks after `#`, and a name between angle
      brackets or quotes. */
  lemma IncludeIff(line: string)
    requires '\n' !in line
    ensures IsInclude(line) <==> Includes(line)
  {
    hide IsInclude, IncludeAs;
    if IsInclude(line) {
      IncludeRead(line);
    }
    if Includes(line) {
      var a, b, c, open, name, close, rest :| IncludeAs(line, a, b, c, open, name, close, rest);
      IncludeFound(line, a, b, c, open, name, close, rest);
    }
  }

  // ----- a whole line

  /** A line in terms of its text: include lines are kept; any other loses its escapes, and
      what is left is collapsed piece by piece. */
  lemma CollapsedIs(line: string) returns (items: seq<Item>, ps: seq<Piece>, end: string)
    requires '\n' !in line
    ensures Includes(line) ==> Collapsed(line) == line
    ensures Reads(items) && Written(items) == line
    ensures Pieces(ps, end) && Whole(ps, end) == Left(items)
    ensures !Includes(line) ==> Collapsed(line) == Shortened(ps, end)
  {
    hide IsInclude, Includes, Pieces, Reads, CollapseFrom, DropEscapes;
    IncludeIff(line);
    items := ReadEscapes(line);
    DropEscapesIs(items);
    ps, end := ReadPieces(Left(items));
    NoNewNewline(line);
    CollapseIs(ps, end);
  }
}
