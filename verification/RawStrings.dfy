/** What becomes of the raw strings of a file: which lines lie inside of one, what each line
    turns into, and what a line is made of. */
module RawStrings {
  import opened Chars
  import opened Cleansing

  ghost predicate Contains(s: string, t: string) {
    exists i: nat :: At(s, t, i)
  }

  /** `s` is `a`, `t` and `b`, and this is the first `t` in it. */
  ghost predicate FirstIn(s: string, a: string, t: string, b: string) {
    s == a + (t + b) && forall i: nat | i < |a| :: !At(s, t, i)
  }

  lemma FindMeans(s: string, t: string)
    ensures Find(s, t, 0) >= 0 <==> Contains(s, t)
  {
  }

  lemma AtFirst(a: string, t: string, b: string)
    ensures At(a + (t + b), t, |a|)
    ensures (a + (t + b))[|a| + |t|..] == b && (a + (t + b))[..|a|] == a
  {
  }

  lemma FindFirst(s: string, a: string, t: string, b: string)
    requires FirstIn(s, a, t, b)
    ensures Find(s, t, 0) == |a| && s[|a| + |t|..] == b
  {
    AtFirst(a, t, b);
  }

  // ----- the lines of a file

  /** The terminator that is looked for when line `k` is reached, if there is one. */
  function InsideAt(lines: seq<string>, k: nat): Option<string>
    requires k <= |lines|
  {
    CleanseLines(lines[..k]).1
  }

  lemma {:induction false} PrefixLine(lines: seq<string>, k: nat, n: nat)
    requires k < n <= |lines|
    ensures CleanseLines(lines[..n]).0[k] == CleanseLine(lines[k], InsideAt(lines, k)).0
    decreases n
  {
    hide CleanseLine;
    var part := lines[..n];
    assert part[..n - 1] == lines[..n - 1] && part[n - 1] == lines[n - 1];
    if k < n - 1 {
      PrefixLine(lines, k, n - 1);
    }
  }

  lemma NextState(lines: seq<string>, k: nat)
    requires k < |lines|
    ensures InsideAt(lines, k + 1) == CleanseLine(lines[k], InsideAt(lines, k)).1
  {
    hide CleanseLine;
    var part := lines[..k + 1];
    assert part[..k] == lines[..k] && part[k] == lines[k];
  }

  /** What is left to search for raw strings on line `j`: the line, or, from the line on where
      the one before it ends, the text after that.  It starts one that ends with `t`. */
  ghost predicate Begins(lines: seq<string>, j: nat, t: string)
    requires j < |lines|
  {
    var inside := InsideAt(lines, j);
    (inside.Some? ==> Contains(lines[j], inside.value)) && ReplaceRaw(Searched(lines[j], inside)).1 == Some(t)
  }

  /** A raw string that ends with `t` begins on line `j` and has not ended before line `k`. */
  ghost predicate Lasts(lines: seq<string>, j: nat, k: nat, t: string)
    requires k <= |lines|
  {
    j < k && Begins(lines, j, t) && forall i | j < i < k :: !Contains(lines[i], t)
  }

  lemma LineState(lines: seq<string>, k: nat)
    requires k < |lines|
    ensures var inside := InsideAt(lines, k);
            InsideAt(lines, k + 1) ==
            if inside.Some? && !Contains(lines[k], inside.value) then inside
            else ReplaceRaw(Searched(lines[k], inside)).1
  {
    hide InsideAt, ReplaceRaw;
    NextState(lines, k);
    var inside := InsideAt(lines, k);
    if inside.Some? {
      FindMeans(lines[k], inside.value);
    }
  }

  lemma {:induction false} InsideFrom(lines: seq<string>, j: nat, k: nat, t: string)
    requires k <= |lines| && Lasts(lines, j, k, t)
    ensures InsideAt(lines, k) == Some(t)
    decreases k
  {
    hide InsideAt, Contains, ReplaceRaw, Searched;
    LineState(lines, k - 1);
    if j < k - 1 {
      InsideFrom(lines, j, k - 1, t);
      assert !Contains(lines[k - 1], t);
    }
  }

  lemma {:induction false} InsideSince(lines: seq<string>, k: nat, t: string) returns (j: nat)
    requires k <= |lines| && InsideAt(lines, k) == Some(t)
    ensures Lasts(lines, j, k, t)
    decreases k
  {
    assert lines[..0] == [];
    hide InsideAt, Contains, ReplaceRaw, Searched;
    LineState(lines, k - 1);
    var inside := InsideAt(lines, k - 1);
    if inside.Some? && !Contains(lines[k - 1], inside.value) {
      j := InsideSince(lines, k - 1, t);
    } else {
      j := k - 1;
    }
  }

  /** A line lies inside a raw string exactly when that raw string begins on an earlier line
      and does not end on a line in between. */
  lemma InsideIff(lines: seq<string>, k: nat, t: string)
    requires k <= |lines|
    ensures InsideAt(lines, k) == Some(t) <==> exists j: nat :: Lasts(lines, j, k, t)
  {
    hide InsideAt, Lasts;
    if InsideAt(lines, k) == Some(t) {
      var j := InsideSince(lines, k, t);
    }
    forall j: nat | Lasts(lines, j, k, t)
      ensures InsideAt(lines, k) == Some(t)
    {
      InsideFrom(lines, j, k, t);
    }
  }

  /** What each line of the file becomes.  Inside of a raw string it is an empty string until
      the line with the terminator, which keeps its indentation and the text after it. */
  lemma LineBecomes(lines: seq<string>, k: nat)
    requires k < |lines|
    ensures InsideAt(lines, k).None? ==> CleanseLines(lines).0[k] == ReplaceRaw(lines[k]).0
    ensures InsideAt(lines, k).None? && (forall i: nat | i <= |lines[k]| :: RawStartAt(lines[k], i).None?) ==>
              CleanseLines(lines).0[k] == lines[k]
    ensures InsideAt(lines, k).Some? && !Contains(lines[k], InsideAt(lines, k).value) ==>
              CleanseLines(lines).0[k] == "\"\""
  {
    assert lines[..|lines|] == lines;
    PrefixLine(lines, k, |lines|);
    var inside := InsideAt(lines, k);
    hide CleanseLines, InsideAt, RawStartAt;
    if inside.None? {
      if forall i: nat | i <= |lines[k]| :: RawStartAt(lines[k], i).None? {
        NoStart(lines[k]);
      }
    } else {
      hide ReplaceRaw;
      FindMeans(lines[k], inside.value);
    }
  }

  lemma NoStart(line: string)
    requires forall i: nat | i <= |line| :: RawStartAt(line, i).None?
    ensures ReplaceRaw(line) == (line, None)
  {
    hide RawStartAt;
    if FindRawStart(line).Some? {
      LastIsStart(line, |line|);
    }
  }

  lemma LastLineBecomes(lines: seq<string>, k: nat, indent: string, rest: string, a: string, b: string)
    requires k < |lines| && InsideAt(lines, k).Some? && FirstIn(lines[k], a, InsideAt(lines, k).value, b)
    requires lines[k] == indent + rest && Blanks(indent) && (rest != [] ==> !IsSpace(rest[0]))
    ensures CleanseLines(lines).0[k] == ReplaceRaw(indent + "\"\"" + b).0
  {
    hide CleanseLines, InsideAt, CleanseLine, ReplaceRaw, FirstIn;
    assert lines[..|lines|] == lines;
    PrefixLine(lines, k, |lines|);
    EndsInside(lines[k], InsideAt(lines, k).value, indent, rest, a, b);
  }

  lemma EndsInside(line: string, t: string, indent: string, rest: string, a: string, b: string)
    requires FirstIn(line, a, t, b)
    requires line == indent + rest && Blanks(indent) && (rest != [] ==> !IsSpace(rest[0]))
    ensures CleanseLine(line, Some(t)).0 == ReplaceRaw(indent + "\"\"" + b).0
  {
    hide ReplaceRaw, LeadingSpace, FirstIn;
    FindFirst(line, a, t, b);
    Indentation(line, indent, rest);
  }

  lemma Indentation(line: string, indent: string, rest: string)
    requires line == indent + rest && Blanks(indent) && (rest != [] ==> !IsSpace(rest[0]))
    ensures LeadingSpace(line) == indent
  {
    SpanIs(line, IsSpace, |indent|);
  }

  // ----- where a raw string starts

  const PREFIXES := ["R", "u8R", "uR", "UR", "LR"]

  predicate Delimiter(d: string) {
    forall k | 0 <= k < |d| :: !IsSpace(d[k]) && d[k] !in "\\()"
  }

  function Opening(prefix: string, d: string): string {
    prefix + ("\"" + (d + "("))
  }

  predicate Apart(b: string) {
    b == [] || !IsWord(b[|b| - 1])
  }

  lemma OpeningAt(prefix: string, d: string, after: string)
    requires prefix in PREFIXES
    ensures var s := Opening(prefix, d) + after;
            PrefixLength(s, 0) == |prefix| && s[|prefix| + 1..] == d + ("(" + after)
  {
    var s := Opening(prefix, d) + after;
    assert s == prefix + ("\"" + (d + ("(" + after)));
    assert s[..|prefix|] == prefix && s[|prefix|] == '"';
    assert s[0..|prefix| + 1] == prefix + "\"";
    assert At(s, prefix + "\"", 0);
    OnePrefix(s, 0);
  }

  lemma DelimiterSpan(d: string, after: string)
    requires Delimiter(d)
    ensures Span(d + ("(" + after), DelimiterChar) == |d|
  {
    SpanIs(d + ("(" + after), DelimiterChar, |d|);
  }

  /** Raw string starts, as text. */
  ghost predicate StartAs(line: string, b: string, prefix: string, d: string, after: string) {
    line == b + (Opening(prefix, d) + after) && prefix in PREFIXES && Delimiter(d) && Apart(b)
  }

  /** The search for a start, unfolded on a line of a file. */
  lemma StartUnfold(line: string, i: nat, rest: string, n: nat)
    requires '\n' !in line && i + PrefixLength(line, i) < |line| && rest == line[i + PrefixLength(line, i) + 1..]
    requires n == Span(rest, DelimiterChar)
    ensures RawStartAt(line, i) ==
            if PrefixLength(line, i) > 0 && !AfterWord(line, i) && n < |rest| && rest[n] == '(' then
              Some(RawStart(line[..i], rest[..n], rest[n + 1..]))
            else None
  {
    hide PrefixLength, Span, DelimiterChar;
    assert '\n' !in line[..i] && '\n' !in rest;
    if n < |rest| {
      assert '\n' !in rest[n + 1..];
    }
  }

  lemma StartRest(b: string, prefix: string, d: string, after: string)
    requires prefix in PREFIXES
    ensures var line := b + (Opening(prefix, d) + after);
            && PrefixLength(line, |b|) == |prefix|
            && |b| + |prefix| < |line|
            && line[|b| + |prefix| + 1..] == d + ("(" + after)
            && line[..|b|] == b
  {
    hide PrefixLength, PREFIXES;
    var s := Opening(prefix, d) + after;
    var line := b + s;
    OpeningAt(prefix, d, after);
    assert |s| > |prefix|;
    assert line[|b|..] == s[0..];
    PrefixIsLocal(line, |b|, s, 0);
    hide Opening;
    assert line[|b| + |prefix| + 1..] == s[|prefix| + 1..];
  }

  lemma StartIs(line: string, b: string, prefix: string, d: string, after: string)
    requires '\n' !in line && StartAs(line, b, prefix, d, after)
    ensures RawStartAt(line, |b|) == Some(RawStart(b, d, after))
  {
    hide PrefixLength, Span, Opening, RawStartAt, DelimiterChar, PREFIXES;
    var rest := d + ("(" + after);
    StartRest(b, prefix, d, after);
    DelimiterSpan(d, after);
    PrefixPositive(prefix);
    ApartIs(line, b);
    StartUnfold(line, |b|, rest, |d|);
    assert rest[..|d|] == d && rest[|d| + 1..] == after;
  }

  lemma PrefixPositive(prefix: string)
    requires prefix in PREFIXES
    ensures |prefix| > 0
  {
  }

  lemma ApartIs(line: string, b: string)
    requires b <= line
    ensures Apart(b) <==> !AfterWord(line, |b|)
  {
  }

  lemma PrefixText(line: string, i: nat) returns (prefix: string)
    requires i <= |line| && PrefixLength(line, i) > 0
    ensures prefix in PREFIXES && |prefix| == PrefixLength(line, i)
    ensures i + |prefix| + 1 <= |line| && line[i..i + |prefix|] == prefix && line[i + |prefix|] == '"'
  {
    prefix := if At(line, "R\"", i) then "R" else if At(line, "u8R\"", i) then "u8R"
              else if At(line, "uR\"", i) then "uR" else if At(line, "UR\"", i) then "UR" else "LR";
    assert "R" + "\"" == "R\"" && "u8R" + "\"" == "u8R\"" && "uR" + "\"" == "uR\"";
    assert "UR" + "\"" == "UR\"" && "LR" + "\"" == "LR\"";
    assert At(line, prefix + "\"", i);
    hide At, PrefixLength;
    AtSplit(line, prefix, '"', i);
  }

  lemma AtSplit(line: string, s: string, c: char, i: nat)
    requires At(line, s + [c], i)
    ensures i + |s| + 1 <= |line| && line[i..i + |s|] == s && line[i + |s|] == c
  {
    var n := |s|;
    assert line[i..i + n + 1] == s + [c];
    assert line[i..i + n] == line[i..i + n + 1][..n] && line[i + n] == line[i..i + n + 1][n];
  }

  lemma StartText(line: string, i: nat, prefix: string, n: nat)
    requires i + |prefix| + 1 <= |line| && line[i..i + |prefix|] == prefix && line[i + |prefix|] == '"'
    requires var rest := line[i + |prefix| + 1..]; n < |rest| && rest[n] == '('
    ensures var rest := line[i + |prefix| + 1..];
            line == line[..i] + (Opening(prefix, rest[..n]) + rest[n + 1..])
  {
    var rest := line[i + |prefix| + 1..];
    var d, after := rest[..n], rest[n + 1..];
    assert rest == d + ("(" + after);
    assert Opening(prefix, d) + after == prefix + ("\"" + rest);
    assert line == line[..i] + line[i..i + |prefix|] + ("\"" + rest);
  }

  lemma DelimiterPrefix(rest: string)
    ensures Delimiter(rest[..Span(rest, DelimiterChar)])
  {
    SpanParts(rest, DelimiterChar);
  }

  lemma StartMeans(line: string, i: nat) returns (prefix: string)
    requires '\n' !in line && i <= |line| && RawStartAt(line, i).Some?
    ensures var m := RawStartAt(line, i).value;
            |m.before| == i && StartAs(line, m.before, prefix, m.delimiter, m.after)
  {
    assert PrefixLength(line, i) > 0;
    prefix := PrefixText(line, i);
    hide PrefixLength, Span, RawStartAt, DelimiterChar, PREFIXES, Opening;
    var rest := line[i + |prefix| + 1..];
    var n := Span(rest, DelimiterChar);
    StartUnfold(line, i, rest, n);
    StartText(line, i, prefix, n);
    ApartIs(line, line[..i]);
    DelimiterPrefix(rest);
  }

  /** Where a raw string starts on a line, in terms of its text: one of the five prefixes that
      is not the end of a word, a quote, a delimiter and an opening parenthesis. */
  lemma StartIffText(line: string, i: nat, m: RawStart)
    requires '\n' !in line && i <= |line|
    ensures RawStartAt(line, i) == Some(m) <==>
            |m.before| == i && exists prefix :: StartAs(line, m.before, prefix, m.delimiter, m.after)
  {
    hide RawStartAt, StartAs;
    if RawStartAt(line, i) == Some(m) {
      var prefix := StartMeans(line, i);
    }
    forall prefix | |m.before| == i && StartAs(line, m.before, prefix, m.delimiter, m.after)
      ensures RawStartAt(line, i) == Some(m)
    {
      StartIs(line, m.before, prefix, m.delimiter, m.after);
    }
  }

  // ----- one raw string of a line

  lemma TerminatorFirst(c: string, d: string, b: string)
    requires Delimiter(d) && !Contains(c, Terminator(d))
    ensures FirstIn(c + (Terminator(d) + b), c, Terminator(d), b)
  {
    var t := Terminator(d);
    var s := c + (t + b);
    forall i: nat | i < |c|
      ensures !At(s, t, i)
    {
      if At(s, t, i) {
        if i + |t| <= |c| {
          assert s[i..i + |t|] == c[i..i + |t|];
          assert At(c, t, i);
        } else {
          AtEach(s, t, i, |c| - i);
        }
      }
    }
  }

  lemma LastOne(line: string, a: string, prefix: string, d: string, after: string)
    requires '\n' !in line && StartAs(line, a, prefix, d, after)
    requires forall k | |a| < k <= |line| :: RawStartAt(line, k).None?
    ensures FindRawStart(line) == Some(RawStart(a, d, after)) && EndsWith(line, after)
  {
    StartIs(line, a, prefix, d, after);
    assert |a| <= |line|;
    AfterIsSuffix(line, |a|, RawStart(a, d, after));
    hide RawStartAt, StartAs;
    LastStartIs(line, |a|, |line|);
  }

  lemma ReplaceFound(line: string, m: RawStart, c: string, b: string)
    requires FindRawStart(line) == Some(m) && FirstIn(m.after, c, Terminator(m.delimiter), b)
    ensures ReplaceRaw(line) == ReplaceRaw(m.before + "\"\"" + b)
  {
    hide FindRawStart, FirstIn;
    FindFirst(m.after, c, Terminator(m.delimiter), b);
  }

  lemma NoneInTail(line: string, m: RawStart, c: string, b: string)
    requires '\n' !in line && FindRawStart(line) == Some(m) && EndsWith(line, m.after)
    requires m.after == c + (Terminator(m.delimiter) + b)
    ensures var line' := m.before + "\"\"" + b;
            '\n' !in line' && forall k | |m.before| <= k <= |line'| :: RawStartAt(line', k).None?
  {
    hide FindRawStart, RawStartAt;
    AtFirst(c, Terminator(m.delimiter), b);
    var from := |c| + |m.delimiter| + 2;
    assert m.after[from..] == b;
    NoNewline(line, m, from);
    var line' := m.before + "\"\"" + b;
    forall k | |m.before| <= k <= |line'|
      ensures RawStartAt(line', k).None?
    {
      NotInTail(line, m, |c|, k);
    }
  }

  /** The last raw string of a line becomes an empty string, and no raw string starts there or
      after it. */
  lemma ReplaceOne(line: string, a: string, prefix: string, d: string, c: string, b: string)
    requires '\n' !in line && StartAs(line, a, prefix, d, c + (Terminator(d) + b)) && !Contains(c, Terminator(d))
    requires forall k | |a| < k <= |line| :: RawStartAt(line, k).None?
    ensures var line' := a + "\"\"" + b;
            && ReplaceRaw(line) == ReplaceRaw(line')
            && '\n' !in line'
            && forall k | |a| <= k <= |line'| :: RawStartAt(line', k).None?
  {
    hide FindRawStart, RawStartAt, ReplaceRaw, FirstIn, Contains, Terminator, Opening, PREFIXES, DelimiterChar, EndsWith;
    var after := c + (Terminator(d) + b);
    var m := RawStart(a, d, after);
    LastOne(line, a, prefix, d, after);
    TerminatorFirst(c, d, b);
    ReplaceFound(line, m, c, b);
    NoneInTail(line, m, c, b);
  }

  // ----- what a replacement does to the starts before it

  lemma PrefixWord(line: string, k: nat, x: nat)
    requires k <= |line| && PrefixLength(line, k) > 0 && k <= x < k + PrefixLength(line, k)
    ensures x < |line| && IsWord(line[x])
  {
    var prefix := PrefixText(line, k);
    hide PrefixLength;
    assert line[x] == prefix[x - k];
    WordPrefix(prefix, x - k);
  }

  lemma WordPrefix(prefix: string, x: nat)
    requires prefix in PREFIXES && x < |prefix|
    ensures IsWord(prefix[x])
  {
  }

  lemma PrefixWithin(a: string, t: string, k: nat)
    requires Apart(a) && k < |a|
    ensures PrefixLength(a + t, k) == PrefixLength(a, k)
    ensures PrefixLength(a, k) > 0 ==> k + PrefixLength(a, k) + 1 <= |a|
  {
    hide PrefixLength;
    PrefixExtends(a, t, k);
    if PrefixLength(a, k) > 0 {
      PrefixFits(a, k);
    }
    var p := PrefixLength(a + t, k);
    if p > 0 && k + p + 1 > |a| {
      PrefixWord(a + t, k, |a| - 1);
    }
  }

  lemma OpensWithin(u: string, t: string)
    requires Span(u, DelimiterChar) < |u|
    ensures OpensRaw(u + t) <==> OpensRaw(u)
  {
    var n := Span(u, DelimiterChar);
    SpanParts(u, DelimiterChar);
    SpanIs(u + t, DelimiterChar, n);
  }

  lemma OpensPast(u: string, prefix: string, d: string, x: string)
    requires Delimiter(u) && Delimiter(d) && prefix in PREFIXES
    ensures OpensRaw(u + (Opening(prefix, d) + x))
  {
    PrefixDelimits(prefix);
    var front := u + (prefix + ("\"" + d));
    assert u + (Opening(prefix, d) + x) == front + ("(" + x);
    assert Delimiter(front);
    DelimiterSpan(front, x);
  }

  lemma PrefixDelimits(prefix: string)
    requires prefix in PREFIXES
    ensures Delimiter(prefix)
  {
  }

  /** Replacing a raw string that stands after `a` makes no new start in `a`, and keeps those
      that have their parenthesis in it. */
  lemma StartsInFront(a: string, prefix: string, d: string, x: string, y: string, k: nat)
    requires Apart(a) && k < |a| && prefix in PREFIXES && Delimiter(d)
    requires '\n' !in a + (Opening(prefix, d) + x) && '\n' !in a + y
    ensures RawStartAt(a + y, k).Some? ==> RawStartAt(a + (Opening(prefix, d) + x), k).Some?
    ensures RawStartAt(a + (Opening(prefix, d) + x), k).Some? && '(' in a[k..] ==> RawStartAt(a + y, k).Some?
  {
    var z := Opening(prefix, d) + x;
    hide PrefixLength, RawStartAt, OpensRaw, Opening, DelimiterChar, PREFIXES;
    StartIff(a + z, k);
    StartIff(a + y, k);
    PrefixWithin(a, z, k);
    PrefixWithin(a, y, k);
    var p := PrefixLength(a, k);
    if p > 0 {
      var u := a[k + p + 1..];
      assert (a + z)[k + p + 1..] == u + z && (a + y)[k + p + 1..] == u + y;
      if Span(u, DelimiterChar) < |u| {
        OpensWithin(u, z);
        OpensWithin(u, y);
      } else {
        DelimiterPrefix(u);
        assert u[..|u|] == u;
        OpensPast(u, prefix, d, x);
        NoParenthesis(a, k, p);
      }
    }
  }

  lemma NoParenthesis(a: string, k: nat, p: nat)
    requires k < |a| && p == PrefixLength(a, k) > 0 && k + p + 1 <= |a| && Delimiter(a[k + p + 1..])
    ensures '(' !in a[k..]
  {
    var prefix := PrefixText(a, k);
    hide PrefixLength;
    PrefixDelimits(prefix);
    forall x | k <= x < |a|
      ensures a[x] != '('
    {
      if x < k + p {
        assert a[x] == prefix[x - k];
      } else if x > k + p {
        assert a[x] == a[k + p + 1..][x - k - p - 1];
      }
    }
  }

  // ----- all raw strings of a line

  /** A raw string and the text after it. */
  datatype Piece = Piece(prefix: string, delimiter: string, content: string, text: string)

  ghost predicate IsPiece(q: Piece) {
    q.prefix in PREFIXES && Delimiter(q.delimiter) && !Contains(q.content, Terminator(q.delimiter))
  }

  function Rendered(ps: seq<Piece>): string {
    if ps == [] then ""
    else
      var q := ps[|ps| - 1];
      Rendered(ps[..|ps| - 1]) + (Opening(q.prefix, q.delimiter) + (q.content + (Terminator(q.delimiter) + q.text)))
  }

  /** The same with every raw string emptied. */
  function Emptied(ps: seq<Piece>): string {
    if ps == [] then "" else Emptied(ps[..|ps| - 1]) + ("\"\"" + ps[|ps| - 1].text)
  }

  /** A raw string of `ps` starts at position `k`, if `n` characters stand before the first. */
  ghost predicate PieceAt(n: nat, ps: seq<Piece>, k: nat) {
    exists j: nat :: j < |ps| && k == n + |Rendered(ps[..j])|
  }

  lemma {:induction false} PieceInFront(t: string, ps: seq<Piece>, k: nat)
    requires PieceAt(|t|, ps, k)
    ensures var a := t + Rendered(ps); |t| <= k < |a| && '(' in a[k..]
  {
    var front, q := ps[..|ps| - 1], ps[|ps| - 1];
    var a := t + Rendered(front);
    var opening := Opening(q.prefix, q.delimiter);
    var rest := opening + (q.content + (Terminator(q.delimiter) + q.text));
    assert t + Rendered(ps) == a + rest;
    hide Opening, Rendered, Terminator;
    OpeningLast(q.prefix, q.delimiter);
    assert (a + rest)[|a| + |opening| - 1] == '(';
    var j: nat :| j < |ps| && k == |t| + |Rendered(ps[..j])|;
    if j < |ps| - 1 {
      assert ps[..j] == front[..j];
      PieceInFront(t, front, k);
    }
    assert (a + rest)[k..][|a| + |opening| - 1 - k] == '(';
  }

  lemma OpeningLast(prefix: string, d: string)
    ensures var o := Opening(prefix, d); o != [] && o[|o| - 1] == '('
  {
  }

  lemma PieceSplit(n: nat, ps: seq<Piece>, k: nat)
    requires ps != []
    ensures PieceAt(n, ps, k) <==> PieceAt(n, ps[..|ps| - 1], k) || k == n + |Rendered(ps[..|ps| - 1])|
  {
    hide Rendered;
    var front := ps[..|ps| - 1];
    assert forall j: nat | j < |front| :: ps[..j] == front[..j];
    if PieceAt(n, ps, k) {
      var j: nat :| j < |ps| && k == n + |Rendered(ps[..j])|;
      if j < |front| {
        assert k == n + |Rendered(front[..j])|;
      }
    }
    if PieceAt(n, front, k) {
      var j: nat :| j < |front| && k == n + |Rendered(front[..j])|;
      assert k == n + |Rendered(ps[..j])|;
    }
  }

  /** From `t` on, the raw strings of the line `t`, `ps`, `z` are those of `ps`. */
  ghost predicate StartsAre(t: string, ps: seq<Piece>, z: string) {
    var line := t + Rendered(ps) + z;
    && '\n' !in line
    && forall k: nat | |t| <= k <= |line| :: RawStartAt(line, k).Some? <==> PieceAt(|t|, ps, k)
  }

  /** Every start of `now` before position `n` was one of `was`. */
  ghost predicate NoNewStart(n: nat, was: string, now: string) {
    n <= |was| && n <= |now| && forall k: nat | k < n :: RawStartAt(now, k).Some? ==> RawStartAt(was, k).Some?
  }

  lemma NotPast(t: string, ps: seq<Piece>, k: nat)
    requires k > |t + Rendered(ps)|
    ensures !PieceAt(|t|, ps, k)
  {
    if PieceAt(|t|, ps, k) {
      PieceInFront(t, ps, k);
    }
  }

  lemma AtPiece(line: string, a: string)
    requires a <= line && '\n' !in line && RawStartAt(line, |a|).Some?
    ensures Apart(a)
  {
    StartIff(line, |a|);
    ApartIs(line, a);
  }

  lemma LineText(t: string, ps: seq<Piece>, z: string)
    requires ps != []
    ensures var front, q := ps[..|ps| - 1], ps[|ps| - 1];
            t + Rendered(ps) + z ==
            (t + Rendered(front)) +
            (Opening(q.prefix, q.delimiter) + (q.content + (Terminator(q.delimiter) + (q.text + z))))
  {
    var front, q := ps[..|ps| - 1], ps[|ps| - 1];
    hide Opening, Terminator;
    var o, c, e := Opening(q.prefix, q.delimiter), q.content, Terminator(q.delimiter);
    assert Rendered(ps) == Rendered(front) + (o + (c + (e + q.text)));
    assert (o + (c + (e + q.text))) + z == o + (c + (e + (q.text + z)));
  }

  /** The line `a`, a raw string, `tail`: its starts from `t` on are those of `front` and that
      of the raw string. */
  ghost predicate LastStarts(t: string, front: seq<Piece>, q: Piece, tail: string) {
    var a := t + Rendered(front);
    var line := a + Ahead(q, tail);
    && IsPiece(q)
    && '\n' !in line
    && forall k: nat | |t| <= k <= |line| :: RawStartAt(line, k).Some? <==> PieceAt(|t|, front, k) || k == |a|
  }

  function Ahead(q: Piece, tail: string): string {
    Opening(q.prefix, q.delimiter) + (q.content + (Terminator(q.delimiter) + tail))
  }

  lemma LastReplaced(t: string, front: seq<Piece>, q: Piece, tail: string)
    requires LastStarts(t, front, q, tail)
    ensures var a := t + Rendered(front);
            var line, line' := a + Ahead(q, tail), a + ("\"\"" + tail);
            && Apart(a)
            && ReplaceRaw(line) == ReplaceRaw(line')
            && '\n' !in line'
            && forall k | |a| <= k <= |line'| :: RawStartAt(line', k).None?
  {
    var a := t + Rendered(front);
    var line := a + Ahead(q, tail);
    hide Rendered, RawStartAt, ReplaceRaw, Opening, PREFIXES, DelimiterChar, Terminator, Contains, PieceAt;
    AtPiece(line, a);
    forall k | |a| < k <= |line|
      ensures RawStartAt(line, k).None?
    {
      NotPast(t, front, k);
    }
    ReplaceOne(line, a, q.prefix, q.delimiter, q.content, tail);
    assert a + "\"\"" + tail == a + ("\"\"" + tail);
  }

  lemma LastLeaves(t: string, front: seq<Piece>, q: Piece, tail: string)
    requires LastStarts(t, front, q, tail)
    ensures var a := t + Rendered(front);
            && StartsAre(t, front, "\"\"" + tail)
            && NoNewStart(|t|, a + Ahead(q, tail), a + ("\"\"" + tail))
  {
    var a := t + Rendered(front);
    var line, line' := a + Ahead(q, tail), a + ("\"\"" + tail);
    LastReplaced(t, front, q, tail);
    hide Rendered, RawStartAt, ReplaceRaw, Opening, PREFIXES, DelimiterChar, Terminator, Contains, PieceAt;
    forall k: nat | k <= |line'|
      ensures k < |t| && RawStartAt(line', k).Some? ==> RawStartAt(line, k).Some?
      ensures |t| <= k ==> (RawStartAt(line', k).Some? <==> PieceAt(|t|, front, k))
    {
      if k < |a| {
        StartsInFront(a, q.prefix, q.delimiter, q.content + (Terminator(q.delimiter) + tail), "\"\"" + tail, k);
      }
      if PieceAt(|t|, front, k) {
        PieceInFront(t, front, k);
      }
    }
  }

  lemma SplitStarts(t: string, ps: seq<Piece>, z: string)
    requires ps != [] && (forall q | q in ps :: IsPiece(q)) && StartsAre(t, ps, z)
    ensures var front, q := ps[..|ps| - 1], ps[|ps| - 1];
            && t + Rendered(ps) + z == t + Rendered(front) + Ahead(q, q.text + z)
            && LastStarts(t, front, q, q.text + z)
  {
    var front, q := ps[..|ps| - 1], ps[|ps| - 1];
    LineText(t, ps, z);
    assert q in ps;
    hide Rendered, RawStartAt, IsPiece, Opening, Terminator, PieceAt;
    var line := t + Rendered(ps) + z;
    forall k: nat | |t| <= k <= |line|
      ensures RawStartAt(line, k).Some? <==> PieceAt(|t|, front, k) || k == |t + Rendered(front)|
    {
      PieceSplit(|t|, ps, k);
    }
  }

  lemma NoNewTrans(n: nat, a: string, b: string, c: string)
    requires NoNewStart(n, a, b) && NoNewStart(n, b, c)
    ensures NoNewStart(n, a, c)
  {
    hide RawStartAt;
  }

  /** The raw strings of a line are replaced one by one, the last one first: each becomes an
      empty string, and the text around them stays. */
  lemma {:induction false} ReplaceAll(t: string, ps: seq<Piece>, z: string)
    requires (forall q | q in ps :: IsPiece(q)) && StartsAre(t, ps, z)
    ensures ReplaceRaw(t + Rendered(ps) + z) == ReplaceRaw(t + (Emptied(ps) + z))
    ensures StartsAre(t, [], Emptied(ps) + z)
    ensures NoNewStart(|t|, t + Rendered(ps) + z, t + (Emptied(ps) + z))
    decreases |ps|
  {
    hide StartsAre, IsPiece, ReplaceRaw, RawStartAt, Ahead, LastStarts;
    if ps == [] {
      assert Emptied(ps) + z == z && t + Rendered(ps) + z == t + z;
    } else {
      hide NoNewStart;
      var front, q := ps[..|ps| - 1], ps[|ps| - 1];
      var tail := q.text + z;
      SplitStarts(t, ps, z);
      LastReplaced(t, front, q, tail);
      LastLeaves(t, front, q, tail);
      hide Rendered;
      FrontOnly(ps);
      ReplaceAll(t, front, "\"\"" + tail);
      EmptiedStep(ps, z);
      NoNewTrans(|t|, t + Rendered(ps) + z, t + Rendered(front) + ("\"\"" + tail), t + (Emptied(ps) + z));
    }
  }

  lemma FrontOnly(ps: seq<Piece>)
    requires ps != [] && forall q | q in ps :: IsPiece(q)
    ensures forall q | q in ps[..|ps| - 1] :: IsPiece(q)
  {
    hide IsPiece;
    assert forall r | r in ps[..|ps| - 1] :: r in ps;
  }

  lemma EmptiedStep(ps: seq<Piece>, z: string)
    requires ps != []
    ensures Emptied(ps[..|ps| - 1]) + ("\"\"" + (ps[|ps| - 1].text + z)) == Emptied(ps) + z
  {
  }

  lemma StartsAfter(t: string, ps: seq<Piece>, k: nat)
    requires (forall q | q in ps :: IsPiece(q)) && StartsAre(t, ps, "") && k <= |t + Emptied(ps)|
    requires k < |t| ==> RawStartAt(t + Rendered(ps), k).None?
    ensures RawStartAt(t + Emptied(ps), k).None?
  {
    hide RawStartAt, IsPiece, ReplaceRaw;
    ReplaceAll(t, ps, "");
    assert Emptied(ps) + "" == Emptied(ps) && t + Rendered(ps) + "" == t + Rendered(ps);
    assert Rendered([]) == "";
    assert t + Rendered([]) + Emptied(ps) == t + Emptied(ps);
    assert !PieceAt(|t|, [], k);
  }

  lemma ReplacedAll(t: string, ps: seq<Piece>)
    requires (forall q | q in ps :: IsPiece(q)) && StartsAre(t, ps, "")
    ensures ReplaceRaw(t + Rendered(ps)) == ReplaceRaw(t + Emptied(ps)) && '\n' !in t + Emptied(ps)
  {
    hide RawStartAt, IsPiece, ReplaceRaw;
    ReplaceAll(t, ps, "");
    assert Emptied(ps) + "" == Emptied(ps) && t + Rendered(ps) + "" == t + Rendered(ps);
    assert t + Rendered([]) + Emptied(ps) == t + Emptied(ps);
  }

  /** A line on which all raw strings end: every one of them becomes an empty string. */
  lemma FinishedLine(t: string, ps: seq<Piece>)
    requires (forall q | q in ps :: IsPiece(q)) && StartsAre(t, ps, "")
    requires forall k: nat | k < |t| :: RawStartAt(t + Rendered(ps), k).None?
    ensures ReplaceRaw(t + Rendered(ps)) == (t + Emptied(ps), None)
  {
    hide RawStartAt, IsPiece, ReplaceRaw, StartsAre, Rendered, Emptied;
    ReplacedAll(t, ps);
    forall k: nat | k <= |t + Emptied(ps)|
      ensures RawStartAt(t + Emptied(ps), k).None?
    {
      StartsAfter(t, ps, k);
    }
    NoStart(t + Emptied(ps));
  }

  /** A line on which a raw string does not end, perhaps with raw strings inside of it that do:
      the text before it is kept as it is, and its terminator is passed on. */
  lemma UnfinishedLine(a: string, prefix: string, d: string, c: string, ps: seq<Piece>)
    requires prefix in PREFIXES && Delimiter(d) && Apart(a) && !Contains(c + Emptied(ps), Terminator(d))
    requires (forall q | q in ps :: IsPiece(q)) && StartsAre(a + (Opening(prefix, d) + c), ps, "")
    requires var t := a + (Opening(prefix, d) + c);
             forall k: nat | |a| < k < |t| :: RawStartAt(t + Rendered(ps), k).None?
    ensures ReplaceRaw(a + (Opening(prefix, d) + c) + Rendered(ps)) == (a + "\"\"", Some(Terminator(d)))
  {
    hide RawStartAt, IsPiece, ReplaceRaw, StartsAre, Rendered, Emptied, Opening, PREFIXES, DelimiterChar, Terminator, Contains;
    var t := a + (Opening(prefix, d) + c);
    var line, after := t + Emptied(ps), c + Emptied(ps);
    ReplacedAll(t, ps);
    forall k: nat | |a| < k <= |line|
      ensures RawStartAt(line, k).None?
    {
      StartsAfter(t, ps, k);
    }
    assert line == a + (Opening(prefix, d) + after);
    LastOne(line, a, prefix, d, after);
    FindMeans(after, Terminator(d));
    ReplaceUnfinished(line, RawStart(a, d, after));
  }
}
