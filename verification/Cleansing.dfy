/** The views of a file that the linter works on: raw strings replaced, and strings and
    character literals collapsed. */
module Cleansing {
  import opened Chars

  // ----- raw strings

  /** The length of a raw string prefix `R`, `u8R`, `uR`, `UR` or `LR` followed by a quote
      at position `i`, or 0. */
  function PrefixLength(line: string, i: nat): nat {
    if At(line, "R\"", i) then 1
    else if At(line, "u8R\"", i) then 3
    else if At(line, "uR\"", i) || At(line, "UR\"", i) || At(line, "LR\"", i) then 2
    else 0
  }

  predicate DelimiterChar(c: char) {
    !IsSpace(c) && c != '\\' && c != '(' && c != ')'
  }

  /** A raw string start: the text before it, the delimiter, and the text after the opening
      parenthesis. */
  datatype RawStart = RawStart(before: string, delimiter: string, after: string)

  /** The match of `^(.*)\b(?:R|u8R|uR|UR|LR)"([^\s\\()]*)\((.*)$` whose first group ends
      at `i`. */
  function RawStartAt(line: string, i: nat): (r: Option<RawStart>)
    requires i <= |line|
    ensures r.Some? ==> r.value.before == line[..i]
    ensures r.Some? ==> i + 3 + |r.value.delimiter| + |r.value.after| <= |line|
  {
    var p := PrefixLength(line, i);
    if p == 0 || (i > 0 && IsWord(line[i - 1])) || '\n' in line[..i] then None
    else
      var rest := line[i + p + 1..];
      var n := Span(rest, DelimiterChar);
      if n == |rest| || rest[n] != '(' then None
      else
        match DotStar(rest[n + 1..])
        case None => None
        case Some(after) => Some(RawStart(line[..i], rest[..n], after))
  }

  /** The last raw string start at or before position `i`: the pattern is greedy. */
  function LastRawStart(line: string, i: nat): (r: Option<RawStart>)
    requires i <= |line|
    ensures r.Some? ==> r.value.before <= line
    ensures r.Some? ==> |r.value.before| + 3 + |r.value.delimiter| + |r.value.after| <= |line|
    ensures r.None? ==> forall k: nat | k <= i :: RawStartAt(line, k).None?
  {
    var here := RawStartAt(line, i);
    if here.Some? then here
    else if i == 0 then None
    else LastRawStart(line, i - 1)
  }

  function FindRawStart(line: string): (r: Option<RawStart>)
    ensures r.Some? ==> r.value.before <= line
    ensures r.Some? ==> |r.value.before| + 3 + |r.value.delimiter| + |r.value.after| <= |line|
  {
    LastRawStart(line, |line|)
  }

  /** `)delimiter"` */
  function Terminator(delimiter: string): string {
    [')'] + delimiter + ['"']
  }

  /** Replaces raw strings that begin on the line, the last one first, until none is left or
      one goes on to the next line; the terminator of that one comes back too.  Every round
      makes the line shorter. */
  function ReplaceRaw(line: string): (string, Option<string>)
    decreases |line|
  {
    match FindRawStart(line)
    case None => (line, None)
    case Some(m) =>
      var t := Terminator(m.delimiter);
      var end := Find(m.after, t, 0);
      if end >= 0 then ReplaceRaw(m.before + "\"\"" + m.after[end + |t|..])
      else (m.before + "\"\"", Some(t))
  }

  /** The first group of `^(\s*)\S`. */
  function LeadingSpace(line: string): string {
    line[..Span(line, IsSpace)]
  }

  /** A terminator is found only on a line that is not blank, so the pattern for the leading
      space matches whenever it is used. */
  lemma TerminatorMeansNotBlank(line: string, t: string)
    requires t != [] && t[0] == ')' && Find(line, t, 0) >= 0
    ensures Span(line, IsSpace) < |line|
  {
    var end := Find(line, t, 0);
    assert line[end] == line[end..end + |t|][0] == ')';
    assert line[..|line|] == line;
  }

  /** One line, inside a raw string that ends with the given terminator or outside of one. */
  function CleanseLine(line: string, inside: Option<string>): (string, Option<string>) {
    if inside.None? then ReplaceRaw(line)
    else
      var end := Find(line, inside.value, 0);
      if end >= 0 then ReplaceRaw(LeadingSpace(line) + "\"\"" + line[end + |inside.value|..])
      else ("\"\"", inside)
  }

  function CleanseLines(lines: seq<string>): (r: (seq<string>, Option<string>))
    ensures |r.0| == |lines|
  {
    if lines == [] then ([], None)
    else
      var (front, inside) := CleanseLines(lines[..|lines| - 1]);
      var (last, inside') := CleanseLine(lines[|lines| - 1], inside);
      (front + [last], inside')
  }

  ghost predicate IsTerminator(inside: Option<string>) {
    inside.Some? ==> inside.value != [] && inside.value[0] == ')'
  }

  lemma {:induction false} ReplaceRawTerminator(line: string)
    ensures IsTerminator(ReplaceRaw(line).1)
    decreases |line|
  {
    var m := FindRawStart(line);
    if m.Some? {
      var t := Terminator(m.value.delimiter);
      var end := Find(m.value.after, t, 0);
      if end >= 0 {
        ReplaceRawTerminator(m.value.before + "\"\"" + m.value.after[end + |t|..]);
      }
    }
  }

  /** A line that ends outside of a raw string has no raw string start left; a line that ends
      inside of one ends with an empty string; lines without a start are kept. */
  lemma {:induction false} ReplaceRawLeaves(line: string)
    ensures var (out, inside) := ReplaceRaw(line);
            if inside.None? then FindRawStart(out).None?
            else EndsWith(out, "\"\"")
    ensures |ReplaceRaw(line).0| <= |line|
    ensures FindRawStart(line).None? ==> ReplaceRaw(line) == (line, None)
    decreases |line|
  {
    var m := FindRawStart(line);
    if m.Some? {
      var t := Terminator(m.value.delimiter);
      var end := Find(m.value.after, t, 0);
      if end >= 0 {
        ReplaceRawLeaves(m.value.before + "\"\"" + m.value.after[end + |t|..]);
      }
    }
  }

  // ----- which lines keep a raw string start

  lemma {:induction false} LastIsLast(line: string, i: nat, k: nat, m: RawStart)
    requires i <= |line| && LastRawStart(line, i) == Some(m) && |m.before| < k <= i
    ensures RawStartAt(line, k).None?
  {
    hide RawStartAt;
    if RawStartAt(line, i).None? {
      if k < i {
        LastIsLast(line, i - 1, k, m);
      }
    } else {
      StartBefore(line, i);
    }
  }

  lemma StartBefore(line: string, i: nat)
    requires i <= |line| && RawStartAt(line, i).Some?
    ensures |RawStartAt(line, i).value.before| == i
  {
  }

  lemma {:induction false} LastIsStart(line: string, i: nat)
    requires i <= |line| && LastRawStart(line, i).Some?
    ensures var m := LastRawStart(line, i).value;
            |m.before| <= i && RawStartAt(line, |m.before|) == Some(m)
  {
    if RawStartAt(line, i).None? {
      LastIsStart(line, i - 1);
    }
  }

  lemma {:induction false} StartFound(line: string, i: nat, k: nat)
    requires k <= i <= |line| && RawStartAt(line, k).Some?
    ensures LastRawStart(line, i).Some?
  {
  }

  /** A delimiter and an opening parenthesis. */
  predicate OpensRaw(rest: string) {
    var n := Span(rest, DelimiterChar);
    n < |rest| && rest[n] == '('
  }

  predicate AfterWord(line: string, i: nat)
    requires i <= |line|
  {
    i > 0 && IsWord(line[i - 1])
  }

  lemma PrefixFits(line: string, i: nat)
    requires i <= |line| && PrefixLength(line, i) > 0
    ensures i + PrefixLength(line, i) + 1 <= |line|
  {
  }

  lemma StartIff(line: string, i: nat)
    requires i <= |line| && '\n' !in line
    ensures var p := PrefixLength(line, i);
            && (p > 0 ==> i + p + 1 <= |line|)
            && (RawStartAt(line, i).Some? <==> p > 0 && !AfterWord(line, i) && OpensRaw(line[i + p + 1..]))
  {
    hide PrefixLength, Span;
    if PrefixLength(line, i) > 0 {
      PrefixFits(line, i);
    }
  }

  /** Whether a raw string starts at `i` depends on the text from `i` on and on the character
      before it. */
  lemma StartIsLocal(a: string, i: nat, b: string, j: nat)
    requires i <= |a| && j <= |b| && '\n' !in a && '\n' !in b && a[i..] == b[j..]
    requires AfterWord(a, i) == AfterWord(b, j)
    ensures RawStartAt(a, i).Some? <==> RawStartAt(b, j).Some?
  {
    hide PrefixLength, RawStartAt, OpensRaw, AfterWord;
    PrefixIsLocal(a, i, b, j);
    StartIff(a, i);
    StartIff(b, j);
    var p := PrefixLength(a, i);
    if p > 0 {
      assert a[i + p + 1..] == a[i..][p + 1..] == b[j..][p + 1..] == b[j + p + 1..];
    }
  }

  lemma PrefixIsLocal(a: string, i: nat, b: string, j: nat)
    requires i <= |a| && j <= |b| && a[i..] == b[j..]
    ensures PrefixLength(a, i) == PrefixLength(b, j)
  {
    AtIsLocal(a, i, b, j, "R\"");
    AtIsLocal(a, i, b, j, "u8R\"");
    AtIsLocal(a, i, b, j, "uR\"");
    AtIsLocal(a, i, b, j, "UR\"");
    AtIsLocal(a, i, b, j, "LR\"");
  }

  lemma AtIsLocal(a: string, i: nat, b: string, j: nat, needle: string)
    requires i <= |a| && j <= |b| && a[i..] == b[j..]
    ensures At(a, needle, i) <==> At(b, needle, j)
  {
    assert |a| - i == |b| - j;
    if i + |needle| <= |a| {
      assert a[i..i + |needle|] == a[i..][..|needle|] == b[j..][..|needle|] == b[j..j + |needle|];
    }
  }

  // ----- the last raw string of a line, replaced

  /** After the last raw string of a line is replaced, the next one is further to the left. */
  lemma NextIsBefore(line: string, m: RawStart, end: nat)
    requires '\n' !in line && FindRawStart(line) == Some(m)
    requires var t := Terminator(m.delimiter); At(m.after, t, end)
    ensures var line' := m.before + "\"\"" + m.after[end + |m.delimiter| + 2..];
            && '\n' !in line'
            && (FindRawStart(line').Some? ==> FindRawStart(line').value.before < m.before)
  {
    var tail := m.after[end + |m.delimiter| + 2..];
    var line' := m.before + "\"\"" + tail;
    hide RawStartAt, LastRawStart;
    LastIsStart(line, |line|);
    AfterIsSuffix(line, |m.before|, m);
    NoNewline(line, m, end + |m.delimiter| + 2);
    if FindRawStart(line').Some? {
      LastIsStart(line', |line'|);
      var j := |FindRawStart(line').value.before|;
      if j >= |m.before| {
        NotInTail(line, m, end, j);
      }
    }
  }

  /** The two quotes start no raw string, and what follows them starts none that was not
      there before. */
  lemma NotInTail(line: string, m: RawStart, end: nat, j: nat)
    requires '\n' !in line && FindRawStart(line) == Some(m) && EndsWith(line, m.after)
    requires At(m.after, Terminator(m.delimiter), end)
    requires var line' := m.before + "\"\"" + m.after[end + |m.delimiter| + 2..];
             |m.before| <= j <= |line'|
    ensures var line' := m.before + "\"\"" + m.after[end + |m.delimiter| + 2..];
            RawStartAt(line', j).None?
  {
    hide RawStartAt, LastRawStart, PrefixLength, AfterWord, Find;
    var from := end + |m.delimiter| + 2;
    var line' := m.before + "\"\"" + m.after[from..];
    NoNewline(line, m, from);
    if j < |m.before| + 2 {
      assert line'[j] == '"';
      NoPrefix(line', j);
    } else {
      var k := |line| - (|line'| - j);
      AtEach(m.after, Terminator(m.delimiter), end, |m.delimiter| + 1);
      TailMatches(line, m.before, m.after, from, j, k);
      LastIsLast(line, |line|, k, m);
      StartIsLocal(line, k, line', j);
    }
  }

  lemma AtEach(line: string, needle: string, i: nat, x: nat)
    requires x < |needle| && At(line, needle, i)
    ensures line[i + x] == needle[x]
  {
    assert line[i..i + |needle|][x] == line[i + x];
  }

  lemma OnePrefix(line: string, i: nat)
    ensures At(line, "R\"", i) ==> line[i] == 'R'
    ensures At(line, "u8R\"", i) ==> line[i] == 'u' && line[i + 1] == '8'
    ensures At(line, "uR\"", i) ==> line[i] == 'u' && line[i + 1] == 'R'
    ensures At(line, "UR\"", i) ==> line[i] == 'U'
    ensures At(line, "LR\"", i) ==> line[i] == 'L'
  {
    if At(line, "R\"", i) { AtEach(line, "R\"", i, 0); }
    if At(line, "u8R\"", i) { AtEach(line, "u8R\"", i, 0); AtEach(line, "u8R\"", i, 1); }
    if At(line, "uR\"", i) { AtEach(line, "uR\"", i, 0); AtEach(line, "uR\"", i, 1); }
    if At(line, "UR\"", i) { AtEach(line, "UR\"", i, 0); }
    if At(line, "LR\"", i) { AtEach(line, "LR\"", i, 0); }
  }

  lemma NoPrefix(line: string, i: nat)
    requires i <= |line| && (i < |line| ==> line[i] !in "RuUL")
    ensures RawStartAt(line, i).None?
  {
    assert PrefixLength(line, i) == 0 by {
      OnePrefix(line, i);
    }
    hide PrefixLength;
  }

  lemma NoNewline(line: string, m: RawStart, from: nat)
    requires '\n' !in line && EndsWith(line, m.after) && m.before <= line && from <= |m.after|
    ensures '\n' !in m.before + "\"\"" + m.after[from..]
  {
    var base := |line| - |m.after|;
    assert forall x | 0 <= x < |m.after| :: m.after[x] == line[base + x];
    assert forall x | 0 <= x < |m.before| :: m.before[x] == line[x];
  }

  lemma TailMatches(line: string, before: string, after: string, from: nat, j: nat, k: int)
    requires EndsWith(line, after) && |before| + |after| < |line|
    requires 0 < from <= |after| && after[from - 1] == '"'
    requires var line' := before + "\"\"" + after[from..];
             |before| + 2 <= j <= |line'| && k == |line| - (|line'| - j)
    ensures var line' := before + "\"\"" + after[from..];
            |before| < k <= |line| && line[k..] == line'[j..] && AfterWord(line, k) == AfterWord(line', j)
  {
    var line' := before + "\"\"" + after[from..];
    var x := j - |before| - 2;
    assert line'[j..] == after[from + x..];
    assert line[|line| - |after|..][from + x..] == line[k..];
    assert line[k - 1] == after[from + x - 1];
    assert x > 0 ==> line'[j - 1] == after[from..][x - 1] == after[from + x - 1];
  }

  /** What follows the opening parenthesis reaches to the end of the line. */
  lemma AfterIsSuffix(line: string, i: nat, m: RawStart)
    requires '\n' !in line && i <= |line| && RawStartAt(line, i) == Some(m)
    ensures EndsWith(line, m.after) && i + 3 + |m.delimiter| + |m.after| <= |line|
  {
    hide PrefixLength, Span;
    PrefixFits(line, i);
    var rest := line[i + PrefixLength(line, i) + 1..];
    var n := Span(rest, DelimiterChar);
    assert '\n' !in rest[n + 1..];
    assert line[|line| - |m.after|..] == m.after;
  }

  /** The text before the raw string that goes on to the next line, if there is one. */
  function Unfinished(line: string): Option<string>
    decreases |line|
  {
    match FindRawStart(line)
    case None => None
    case Some(m) =>
      var t := Terminator(m.delimiter);
      var end := Find(m.after, t, 0);
      if end >= 0 then Unfinished(m.before + "\"\"" + m.after[end + |t|..]) else Some(m.before)
  }

  /** That text is part of the line as it was, and all that is kept of it. */
  lemma {:induction false} UnfinishedMeans(line: string)
    requires '\n' !in line
    ensures var (out, inside) := ReplaceRaw(line);
            match Unfinished(line)
            case None => inside.None?
            case Some(before) => inside.Some? && out == before + "\"\"" && before <= line
    ensures Unfinished(line).Some? ==> FindRawStart(line).Some? && Unfinished(line).value <= FindRawStart(line).value.before
    decreases |line|
  {
    hide FindRawStart;
    var m := FindRawStart(line);
    if m.Some? {
      var t := Terminator(m.value.delimiter);
      var end := Find(m.value.after, t, 0);
      if end >= 0 {
        NextIsBefore(line, m.value, end);
        UnfinishedMeans(m.value.before + "\"\"" + m.value.after[end + |t|..]);
      }
    }
  }

  lemma {:induction false} SpanExtends(s: string, t: string)
    requires '(' !in t
    ensures OpensRaw(s + t) <==> OpensRaw(s)
    decreases |s|
  {
    if s == [] {
      assert s + t == t;
    } else {
      assert (s + t)[1..] == s[1..] + t;
      SpanExtends(s[1..], t);
    }
  }

  lemma AtExtends(s: string, t: string, needle: string, i: nat)
    ensures At(s, needle, i) ==> At(s + t, needle, i)
    ensures At(s + t, needle, i) && i + |needle| <= |s| ==> At(s, needle, i)
  {
    if i + |needle| <= |s| {
      assert (s + t)[i..i + |needle|] == s[i..i + |needle|];
    }
  }

  /** At most one of the prefixes is found at a position. */
  lemma PrefixExtends(s: string, t: string, i: nat)
    ensures var p := PrefixLength(s, i);
            p > 0 ==> PrefixLength(s + t, i) == p
    ensures var p := PrefixLength(s + t, i);
            p > 0 && i + p + 1 <= |s| ==> PrefixLength(s, i) == p
  {
    AtExtends(s, t, "R\"", i);
    AtExtends(s, t, "u8R\"", i);
    AtExtends(s, t, "uR\"", i);
    AtExtends(s, t, "UR\"", i);
    AtExtends(s, t, "LR\"", i);
    OnePrefix(s + t, i);
  }

  lemma StartExtends(s: string, t: string, k: nat)
    requires '\n' !in s && '\n' !in t && '(' !in t && k <= |s| + |t|
    ensures RawStartAt(s + t, k).Some? <==> k <= |s| && RawStartAt(s, k).Some?
  {
    hide PrefixLength, RawStartAt, OpensRaw;
    var line := s + t;
    StartIff(line, k);
    PrefixExtends(s, t, k);
    var p := PrefixLength(line, k);
    if p > 0 && k + p + 1 <= |s| {
      StartIff(s, k);
      assert line[k + p + 1..] == s[k + p + 1..] + t;
      SpanExtends(s[k + p + 1..], t);
    } else {
      if p > 0 {
        assert line[k + p + 1..] == t[k + p + 1 - |s|..];
        NoOpening(line[k + p + 1..]);
      }
      if k <= |s| {
        StartIff(s, k);
      }
    }
  }

  lemma NoOpening(s: string)
    requires '(' !in s
    ensures !OpensRaw(s)
  {
  }

  /** Two more quotes at the end start no raw string. */
  lemma QuotesStartNothing(s: string)
    requires '\n' !in s
    ensures FindRawStart(s + "\"\"").Some? <==> FindRawStart(s).Some?
  {
    hide RawStartAt, LastRawStart;
    var line := s + "\"\"";
    if FindRawStart(s).Some? {
      var k := |FindRawStart(s).value.before|;
      LastIsStart(s, |s|);
      StartExtends(s, "\"\"", k);
      StartFound(line, |line|, k);
    }
    if FindRawStart(line).Some? {
      var k := |FindRawStart(line).value.before|;
      LastIsStart(line, |line|);
      StartExtends(s, "\"\"", k);
      StartFound(s, |s|, k);
    }
  }

  /** A line keeps a raw string start exactly when it ends inside of a raw string and such a
      start lies wholly in the text before that raw string. */
  lemma FreeIffNoneBefore(line: string)
    requires '\n' !in line
    ensures FindRawStart(ReplaceRaw(line).0).None? <==>
            Unfinished(line).None? || FindRawStart(Unfinished(line).value).None?
  {
    hide FindRawStart;
    ReplaceRawLeaves(line);
    UnfinishedMeans(line);
    if Unfinished(line).Some? {
      assert '\n' !in Unfinished(line).value;
      QuotesStartNothing(Unfinished(line).value);
    }
  }

  /** The text of a line that raw strings are looked for in, inside a raw string or not. */
  function Searched(line: string, inside: Option<string>): string {
    if inside.None? then line
    else
      var end := Find(line, inside.value, 0);
      if end >= 0 then LeadingSpace(line) + "\"\"" + line[end + |inside.value|..] else ""
  }

  /** The same for a line in its place in the file. */
  lemma CleansedIffNoneBefore(line: string, inside: Option<string>)
    requires '\n' !in line
    ensures var text := Searched(line, inside);
            FindRawStart(CleanseLine(line, inside).0).None? <==>
            Unfinished(text).None? || FindRawStart(Unfinished(text).value).None?
  {
    if inside.None? || Find(line, inside.value, 0) >= 0 {
      FreeIffNoneBefore(Searched(line, inside));
    } else {
      QuotesStartNothing("");
      assert "" + "\"\"" == "\"\"";
      assert FindRawStart("").None?;
    }
  }

  lemma PlainPrefix(line: string, i: nat)
    requires i + 3 <= |line| && line[i..i + 3] == "R\"("
    ensures PrefixLength(line, i) == 1 && line[i + 2] == '('
  {
    assert line[i..i + 2] == line[i..i + 3][..2] == "R\"";
    assert line[i + 2] == line[i..i + 3][2];
  }

  lemma NoDelimiter(rest: string)
    requires rest != [] && rest[0] == '('
    ensures Span(rest, DelimiterChar) == 0
  {
  }

  lemma PlainStart(line: string, i: nat)
    requires i + 3 <= |line| && line[i..i + 3] == "R\"(" && (i > 0 ==> !IsWord(line[i - 1])) && '\n' !in line
    ensures RawStartAt(line, i) == Some(RawStart(line[..i], "", line[i + 3..]))
  {
    hide PrefixLength, Span, DelimiterChar;
    PlainPrefix(line, i);
    var rest := line[i + 2..];
    NoDelimiter(rest);
    assert rest[1..] == line[i + 3..] && rest[..0] == "";
  }

  lemma {:induction false} LastStartIs(line: string, k: nat, i: nat)
    requires k <= i <= |line| && RawStartAt(line, k).Some? && forall x | k < x <= i :: RawStartAt(line, x).None?
    ensures LastRawStart(line, i) == RawStartAt(line, k)
  {
    hide RawStartAt;
    if k < i {
      LastStartIs(line, k, i - 1);
    }
  }

  lemma EndsWithStart(line: string, i: nat)
    requires '\n' !in line && i + 3 <= |line| && line[i..i + 3] == "R\"(" && (i > 0 ==> !IsWord(line[i - 1]))
    requires forall x | i < x < |line| :: line[x] !in "RuUL"
    ensures FindRawStart(line) == Some(RawStart(line[..i], "", line[i + 3..]))
  {
    hide RawStartAt;
    PlainStart(line, i);
    forall x | i < x <= |line|
      ensures RawStartAt(line, x).None?
    {
      NoPrefix(line, x);
    }
    LastStartIs(line, i, |line|);
  }

  lemma ReplaceUnfinished(line: string, m: RawStart)
    requires FindRawStart(line) == Some(m) && Find(m.after, Terminator(m.delimiter), 0) == -1
    ensures ReplaceRaw(line) == (m.before + "\"\"", Some(Terminator(m.delimiter)))
  {
    hide FindRawStart;
  }

  /** Any line that ends with the start of a raw string and has another one before it. */
  lemma EarlierStays(head: string, rest: string)
    requires '\n' !in head && '\n' !in rest && head != [] && !IsWord(head[|head| - 1]) && FindRawStart(head).Some?
    requires '"' !in rest && forall k | 0 <= k < |rest| :: rest[k] !in "RuUL"
    ensures var (out, inside) := ReplaceRaw(head + "R\"(" + rest);
            out == head + "\"\"" && inside == Some(")\"") && FindRawStart(out).Some?
  {
    hide FindRawStart, ReplaceRaw, Find;
    var line := head + "R\"(" + rest;
    var i := |head|;
    assert line[..i] == head && line[i..i + 3] == "R\"(" && line[i + 3..] == rest;
    EndsWithStart(line, i);
    NoTerminator(rest);
    ReplaceUnfinished(line, RawStart(head, "", rest));
    assert Terminator("") == ")\"";
    QuotesStartNothing(head);
  }

  lemma NoTerminator(rest: string)
    requires '"' !in rest
    ensures Find(rest, Terminator(""), 0) == -1
  {
    if Find(rest, Terminator(""), 0) >= 0 {
      AtEach(rest, Terminator(""), Find(rest, Terminator(""), 0), 1);
    }
  }

  /** One such line: the first raw string stays. */
  lemma EarlierRawStringStays()
    ensures var (out, inside) := ReplaceRaw("R\"(a)\",R\"(b");
            out == "R\"(a)\",\"\"" && inside == Some(")\"") && FindRawStart(out).Some?
  {
    hide RawStartAt, LastRawStart, ReplaceRaw;
    var head := "R\"(a)\",";
    assert head[0..3] == "R\"(";
    PlainStart(head, 0);
    StartFound(head, |head|, 0);
    hide FindRawStart;
    EarlierStays(head, "b");
    assert head + "R\"(" + "b" == "R\"(a)\",R\"(b" && head + "\"\"" == "R\"(a)\",\"\"";
  }

  method CleanseRawStrings(rawLines: seq<string>) returns (lines: seq<string>)
    ensures lines == CleanseLines(rawLines).0
    ensures |lines| == |rawLines|
  {
    var delimiter: Option<string> := None;
    lines := [];
    for i := 0 to |rawLines|
      invariant (lines, delimiter) == CleanseLines(rawLines[..i])
      invariant |lines| == i
      invariant IsTerminator(delimiter)
    {
      assert rawLines[..i + 1][..i] == rawLines[..i];
      var line: string;
      line, delimiter := CleanseOne(rawLines[i], delimiter);
      lines := lines + [line];
    }
    assert rawLines[..|rawLines|] == rawLines;
  }

  /** The body of the loop over the lines. */
  method CleanseOne(line0: string, delimiter0: Option<string>) returns (line: string, delimiter: Option<string>)
    requires IsTerminator(delimiter0)
    ensures (line, delimiter) == CleanseLine(line0, delimiter0)
    ensures IsTerminator(delimiter)
  {
    line, delimiter := line0, delimiter0;
    if delimiter.Some? {
      var end := Find(line, delimiter.value, 0);
      if end >= 0 {
        TerminatorMeansNotBlank(line, delimiter.value);
        line := LeadingSpace(line) + "\"\"" + line[end + |delimiter.value|..];
        delimiter := None;
      } else {
        line := "\"\"";
      }
    }
    if delimiter.None? {
      line, delimiter := ReplaceRawLoop(line);
    }
  }

  method ReplaceRawLoop(line0: string) returns (line: string, delimiter: Option<string>)
    ensures (line, delimiter) == ReplaceRaw(line0)
    ensures IsTerminator(delimiter)
  {
    hide FindRawStart;
    ReplaceRawTerminator(line0);
    line, delimiter := line0, None;
    while delimiter.None?
      invariant ReplaceRaw(line0) == if delimiter.None? then ReplaceRaw(line) else (line, delimiter)
      decreases delimiter.None?, |line|
    {
      var m := FindRawStart(line);
      if m.None? {
        break;
      }
      var t := Terminator(m.value.delimiter);
      var end := Find(m.value.after, t, 0);
      if end >= 0 {
        line := m.value.before + "\"\"" + m.value.after[end + |t|..];
      } else {
        line := m.value.before + "\"\"";
        delimiter := Some(t);
      }
    }
  }

  // ----- strings and character literals

  predicate IsQuote(c: char) {
    c == '"' || c == '\''
  }

  predicate NotQuote(c: char) {
    !IsQuote(c)
  }

  predicate IsHex(c: char) {
    '0' <= c <= '9' || 'a' <= c <= 'f' || 'A' <= c <= 'F'
  }

  /** A number of the form `(?:0[bBxX]?|[1-9])[0-9a-fA-F]*` fills `h` from `i` to the end. */
  predicate NumberFrom(h: string, i: nat)
    requires i < |h|
  {
    || (h[i] == '0' && All(h[i + 1..], IsHex))
    || (h[i] == '0' && i + 1 < |h| && h[i + 1] in "bBxX" && All(h[i + 2..], IsHex))
    || ('1' <= h[i] <= '9' && All(h[i + 1..], IsHex))
  }

  predicate EndsInNumber(h: string) {
    exists i :: 0 <= i < |h| && (i == 0 || !IsWord(h[i - 1])) && NumberFrom(h, i)
  }

  /** `Search(r'\b(?:0[bBxX]?|[1-9])[0-9a-fA-F]*$', h)`, where `$` allows a final newline. */
  predicate DigitsBefore(h: string) {
    EndsInNumber(h) || (h != [] && h[|h| - 1] == '\n' && EndsInNumber(h[..|h| - 1]))
  }

  /** Length of the longest match of `(?:'?[0-9a-zA-Z_])*`. */
  function LiteralLength(s: string): (n: nat)
    ensures n <= |s|
  {
    if |s| >= 1 && IsWord(s[0]) then 1 + LiteralLength(s[1..])
    else if |s| >= 2 && s[0] == '\'' && IsWord(s[1]) then 2 + LiteralLength(s[2..])
    else 0
  }

  function WithoutQuotes(s: string): (r: string)
    ensures '\'' !in r && ('"' !in s ==> '"' !in r)
  {
    if s == [] then []
    else
      assert s == [s[0]] + s[1..];
      (if s[0] == '\'' then [] else [s[0]]) + WithoutQuotes(s[1..])
  }

  /** The match of `^([^'"]*)(['"])(.*)$`: position of the first quote, and the text after. */
  function FirstQuote(s: string): (r: Option<(nat, string)>)
    ensures r.Some? ==> r.value.0 < |s| && IsQuote(s[r.value.0]) && r.value.0 + 1 + |r.value.1| <= |s|
    ensures r.Some? ==> forall k | 0 <= k < r.value.0 :: !IsQuote(s[k])
    ensures r.Some? ==> r.value.1 <= s[r.value.0 + 1..]
  {
    var n := Span(s, NotQuote);
    if n == |s| then None
    else
      var tail := DotStar(s[n + 1..]);
      assert forall k | 0 <= k < n :: s[..n][k] == s[k];
      if tail.Some? then Some((n, tail.value)) else None
  }

  /** What one round of the loop does: text to emit and what is left, or the end. */
  datatype Round = Stop | Emit(text: string, rest: string)

  function RoundOf(elided: string): Round {
    match FirstQuote(elided)
    case None => Stop
    case Some((n, tail)) => RoundAt(elided[..n], elided[n], tail)
  }

  /** The round for a quote, the text before it and the text after it. */
  function RoundAt(head: string, quote: char, tail: string): Round {
    if quote == '"' then
      var second := Find(tail, "\"", 0);
      if second >= 0 then Emit(head + "\"\"", tail[second + 1..]) else Stop
    else if DigitsBefore(head) then
      var text := "'" + tail;
      var m := LiteralLength(text);
      Emit(head + WithoutQuotes(text[..m]), text[m..])
    else
      var second := Find(tail, "'", 0);
      if second >= 0 then Emit(head + "''", tail[second + 1..]) else Stop
  }

  /** Every round leaves strictly less text, also the one for digit separators, which may
      consume nothing but the digits before the quote. */
  lemma RoundShrinks(elided: string)
    ensures RoundOf(elided).Emit? ==> |RoundOf(elided).rest| < |elided|
  {
  }

  function CollapseFrom(elided: string): string
    decreases |elided|
  {
    RoundShrinks(elided);
    match RoundOf(elided)
    case Stop => elided
    case Emit(text, rest) => text + CollapseFrom(rest)
  }

  predicate IncludedChar(c: char) {
    c != '>' && c != '"'
  }

  /** `^\s*#\s*include\s*([<"])([^>"]*)[>"].*$` */
  predicate IsInclude(line: string) {
    var t := LStrip(line);
    t != [] && t[0] == '#' &&
    var u := LStrip(t[1..]);
    StartsWith(u, "include") &&
    var v := LStrip(u[7..]);
    v != [] && (v[0] == '<' || v[0] == '"') &&
    var n := Span(v[1..], IncludedChar);
    n < |v[1..]| && DotStar(v[1..][n + 1..]).Some?
  }

  predicate IsDigit(c: char) {
    '0' <= c <= '9'
  }

  /** Length of the escape sequence `\\([abfnrtv?"\\\']|\d+|x[0-9a-fA-F]+)` at the start, or 0. */
  function EscapeLength(s: string): (n: nat)
    ensures n <= |s|
  {
    if |s| < 2 || s[0] != '\\' then 0
    else if s[1] in "abfnrtv?\"\\\'" then 2
    else if IsDigit(s[1]) then 1 + Span(s[1..], IsDigit)
    else if s[1] == 'x' && |s| > 2 && IsHex(s[2]) then 2 + Span(s[2..], IsHex)
    else 0
  }

  function DropEscapes(s: string): string
    decreases |s|
  {
    if s == [] then []
    else
      var n := EscapeLength(s);
      if n > 0 then DropEscapes(s[n..]) else [s[0]] + DropEscapes(s[1..])
  }

  /** A line with its strings and character literals collapsed; include lines are kept. */
  function Collapsed(line: string): string {
    if IsInclude(line) then line else CollapseFrom(DropEscapes(line))
  }

  method CollapseStrings(line: string) returns (collapsed: string)
    ensures collapsed == Collapsed(line)
  {
    hide RoundOf, IsInclude, FirstQuote;
    if IsInclude(line) {
      return line;
    }
    var elided := DropEscapes(line);
    ghost var all := elided;
    collapsed := "";
    while true
      invariant collapsed + CollapseFrom(elided) == CollapseFrom(all)
      decreases |elided|
    {
      RoundShrinks(elided);
      var round := CollapseRound(elided);
      if round.Stop? {
        collapsed := collapsed + elided;
        break;
      }
      assert collapsed + (round.text + CollapseFrom(round.rest)) == collapsed + round.text + CollapseFrom(round.rest);
      collapsed := collapsed + round.text;
      elided := round.rest;
    }
  }

  /** The body of the loop. */
  method CollapseRound(elided: string) returns (r: Round)
    ensures r == RoundOf(elided)
  {
    hide FirstQuote, DigitsBefore;
    var m := FirstQuote(elided);
    if m.None? {
      return Stop;
    }
    var head, quote, tail := elided[..m.value.0], elided[m.value.0], m.value.1;
    if quote == '"' {
      var second := Find(tail, "\"", 0);
      if second >= 0 {
        return Emit(head + "\"\"", tail[second + 1..]);
      }
      return Stop;
    }
    if DigitsBefore(head) {
      var n := LiteralLength("'" + tail);
      return Emit(head + WithoutQuotes(("'" + tail)[..n]), ("'" + tail)[n..]);
    }
    var second := Find(tail, "'", 0);
    if second >= 0 {
      return Emit(head + "''", tail[second + 1..]);
    }
    return Stop;
  }

  // ----- what collapsing achieves

  predicate QuoteFree(s: string) {
    forall k | 0 <= k < |s| :: !IsQuote(s[k])
  }

  /** Read from the left, every quote is followed at once by its partner, up to a last quote
      that has no partner. */
  predicate Tidy(s: string)
    decreases |s|
  {
    var n := Span(s, NotQuote);
    n == |s| || if n + 1 < |s| && s[n + 1] == s[n] then Tidy(s[n + 2..]) else s[n] !in s[n + 1..]
  }

  lemma {:induction false} SpanPast(p: string, s: string)
    requires QuoteFree(p)
    ensures Span(p + s, NotQuote) == |p| + Span(s, NotQuote)
    decreases |p|
  {
    if p == [] {
      assert p + s == s;
    } else {
      assert (p + s)[1..] == p[1..] + s;
      SpanPast(p[1..], s);
    }
  }

  lemma TidyAfterText(p: string, s: string)
    requires QuoteFree(p) && Tidy(s)
    ensures Tidy(p + s)
  {
    SpanPast(p, s);
    var n := Span(s, NotQuote);
    if n < |s| {
      assert (p + s)[|p| + n + 1..] == s[n + 1..];
      if n + 1 < |s| && s[n + 1] == s[n] {
        assert (p + s)[|p| + n + 2..] == s[n + 2..];
      }
    }
  }

  lemma TidyAfterPair(p: string, q: char, s: string)
    requires QuoteFree(p) && IsQuote(q) && Tidy(s)
    ensures Tidy(p + [q, q] + s)
  {
    var rest := [q, q] + s;
    assert rest[2..] == s;
    assert Span(rest, NotQuote) == 0;
    assert p + [q, q] + s == p + rest;
    TidyAfterText(p, rest);
  }

  /** After collapsing, every string and character literal on the line is empty, whatever
      stood in it. */
  lemma {:induction false} CollapseIsTidy(elided: string)
    requires '\n' !in elided
    ensures Tidy(CollapseFrom(elided))
    decreases |elided|
  {
    hide RoundOf, Tidy, Plain;
    RoundShrinks(elided);
    RoundKinds(elided);
    match RoundOf(elided)
    case Stop =>
    case Emit(text, rest) =>
      CollapseIsTidy(rest);
      TidyAfterPlain(text, CollapseFrom(rest));
  }

  lemma {:induction false} NoNewNewline(s: string)
    requires '\n' !in s
    ensures '\n' !in DropEscapes(s)
    decreases |s|
  {
    if s != [] {
      var n := EscapeLength(s);
      NoNewNewline(if n > 0 then s[n..] else s[1..]);
    }
  }

  /** The same for a whole line that is no include line. */
  lemma CollapsedIsTidy(line: string)
    requires '\n' !in line && !IsInclude(line)
    ensures Tidy(Collapsed(line))
  {
    NoNewNewline(line);
    CollapseIsTidy(DropEscapes(line));
  }

  lemma TidyAfterPlain(text: string, s: string)
    requires Plain(text) && Tidy(s)
    ensures Tidy(text + s)
  {
    hide Tidy;
    if QuoteFree(text) {
      TidyAfterText(text, s);
    } else {
      var n := |text| - 2;
      assert text == text[..n] + [text[n], text[n]];
      TidyAfterPair(text[..n], text[n], s);
    }
  }

  /** Text without quotes, or such text and an empty literal. */
  predicate Plain(text: string) {
    || QuoteFree(text)
    || (|text| >= 2 && IsQuote(text[|text| - 1]) && text[|text| - 2] == text[|text| - 1] && QuoteFree(text[..|text| - 2]))
  }

  lemma {:induction false} LiteralIsPlain(s: string)
    ensures '"' !in s[..LiteralLength(s)]
    decreases |s|
  {
    if |s| >= 1 && IsWord(s[0]) {
      LiteralIsPlain(s[1..]);
      assert s[..LiteralLength(s)] == [s[0]] + s[1..][..LiteralLength(s[1..])];
    } else if |s| >= 2 && s[0] == '\'' && IsWord(s[1]) {
      LiteralIsPlain(s[2..]);
      assert s[..LiteralLength(s)] == [s[0], s[1]] + s[2..][..LiteralLength(s[2..])];
    }
  }

  lemma PairIsPlain(head: string, q: char)
    requires QuoteFree(head) && IsQuote(q)
    ensures Plain(head + [q, q])
  {
    assert (head + [q, q])[..|head|] == head;
  }

  /** What a round emits is plain; it stops only at a quote without a partner. */
  lemma RoundAtKinds(head: string, quote: char, tail: string)
    requires QuoteFree(head) && IsQuote(quote) && '\n' !in tail
    ensures match RoundAt(head, quote, tail)
            case Stop => quote !in tail
            case Emit(text, rest) => '\n' !in rest && Plain(text)
  {
    FindChar(tail, quote);
    PairIsPlain(head, quote);
    if quote != '"' && DigitsBefore(head) {
      hide DigitsBefore;
      var text := "'" + tail;
      LiteralIsPlain(text);
      var digits := WithoutQuotes(text[..LiteralLength(text)]);
      assert '"' !in digits && '\'' !in digits;
      assert QuoteFree(digits);
    }
  }

  lemma RoundKinds(elided: string)
    requires '\n' !in elided
    ensures match RoundOf(elided)
            case Stop => Tidy(elided)
            case Emit(text, rest) => '\n' !in rest && Plain(text)
  {
    var n := Span(elided, NotQuote);
    if n < |elided| {
      hide RoundAt;
      var head, tail := elided[..n], elided[n + 1..];
      assert FirstQuote(elided) == Some((n, tail));
      RoundAtKinds(head, elided[n], tail);
      if elided[n] !in tail {
        assert n + 1 < |elided| ==> elided[n + 1] == tail[0];
      }
    }
  }

  // ----- the three views

  /** The lines without comments, the lines without comments and with collapsed strings, and
      the lines as they are; `cleanseComments` removes comments within a line. */
  class CleansedLines {
    var elided: seq<string>
    var lines: seq<string>
    const rawLines: seq<string>
    const numLines: nat

    constructor (rawLines: seq<string>, cleanseComments: string -> string)
      ensures this.rawLines == rawLines
      ensures |elided| == |lines| == |rawLines| == numLines
      ensures forall k | 0 <= k < numLines ::
                && lines[k] == cleanseComments(CleanseLines(rawLines).0[k])
                && elided[k] == cleanseComments(Collapsed(CleanseLines(rawLines).0[k]))
    {
      this.rawLines := rawLines;
      numLines := |rawLines|;
      var l, e := BuildViews(rawLines, cleanseComments);
      lines, elided := l, e;
    }
  }

  /** The loop of the constructor. */
  method BuildViews(rawLines: seq<string>, cleanseComments: string -> string) returns (lines: seq<string>, elided: seq<string>)
    ensures |elided| == |lines| == |rawLines|
    ensures forall k | 0 <= k < |rawLines| ::
              && lines[k] == cleanseComments(CleanseLines(rawLines).0[k])
              && elided[k] == cleanseComments(Collapsed(CleanseLines(rawLines).0[k]))
  {
    hide CleanseLines, Collapsed;
    elided, lines := [], [];
    var withoutRawStrings := CleanseRawStrings(rawLines);
    for i := 0 to |withoutRawStrings|
      invariant |elided| == |lines| == i
      invariant forall k | 0 <= k < i ::
                  && lines[k] == cleanseComments(withoutRawStrings[k])
                  && elided[k] == cleanseComments(Collapsed(withoutRawStrings[k]))
    {
      lines := lines + [cleanseComments(withoutRawStrings[i])];
      var collapsed := CollapseStrings(withoutRawStrings[i]);
      elided := elided + [cleanseComments(collapsed)];
    }
  }
}
