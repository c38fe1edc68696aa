/** What ReverseCloseExpression does from `>`: a reference matcher that reads to the left, one
    character at a time, counts angle brackets outside of round, square and curly ones, and
    ignores them inside. */
module AngleBack {
  import opened Chars
  import opened Dyck
  import opened BracketScan
  import T = BracketTheorems
  import A = AngleBrackets

  // ----- which angle brackets count

  /** `>` that belongs to an arrow, to a comparison between blanks, or to the name of an
      operator. */
  predicate NotGreater(line: string, i: nat)
    requires i < |line|
  {
    i > 0 && (line[i - 1] == '-' || SpacedGe(line, i) || EndsWithOperator(line[..i]))
  }

  /** How many `<` stand in a row from `i` on. */
  function InRow(line: string, i: nat): nat
    requires i <= |line|
    decreases |line| - i
  {
    if i < |line| && line[i] == '<' then 1 + InRow(line, i + 1) else 0
  }

  /** In a row of `<`, two at a time are shifts, from the right; the one that is left over, at
      the start of the row, is a bracket. */
  predicate IsLess(line: string, i: nat)
    requires i < |line|
  {
    line[i] == '<' && (i == 0 || line[i - 1] != '<') && InRow(line, i) % 2 == 1
  }

  /** `n` angle brackets are open, and above them the brackets `open`; or the start is found,
      or there is none. */
  datatype Reading = Reading(n: nat, open: string) | Ended(pos: nat) | Never

  /** Inside of brackets only brackets matter.  Outside, a semicolon or an opening bracket means
      that there is no start. */
  function Read(line: string, i: nat, n: nat, open: string): Reading
    requires i < |line| && n > 0
  {
    var c := line[i];
    if open != [] then
      match Feed(open, Partner(c))
      case None => Never
      case Some(open') => Reading(n, open')
    else if Closer(c) then Reading(n, [Partner(c)])
    else if Opener(c) || c == ';' then Never
    else if c == '>' && !NotGreater(line, i) then Reading(n + 1, [])
    else if IsLess(line, i) then
      if n == 1 then Ended(i) else Reading(n - 1, [])
    else Reading(n, [])
  }

  function ReadLine(line: string, i: int, r: Reading): Reading
    requires -1 <= i < |line|
    decreases i
  {
    if !r.Reading? || r.n == 0 || i == -1 then r
    else ReadLine(line, i - 1, Read(line, i, r.n, r.open))
  }

  function ReadLines(lines: seq<string>, l: nat, i: int, r: Reading): (nat, int)
    requires l < |lines| && -1 <= i < |lines[l]|
    decreases l
  {
    match ReadLine(lines[l], i, r)
    case Ended(p) => (l, p as int)
    case Never => (0, -1)
    case Reading(n, open) => if l == 0 then (0, -1) else ReadLines(lines, l - 1, |lines[l - 1]| - 1, Reading(n, open))
  }

  // ----- the stack of the scanner

  function Angles(n: nat): (s: string)
    ensures |s| == n && forall k | 0 <= k < n :: s[k] == '>'
  {
    seq(n, _ => '>')
  }

  /** The stack has `n` angle brackets at the bottom, and above them the partners of the
      brackets `open`, mixed with guesses. */
  ghost predicate Shows(st: string, n: nat, open: string) {
    n > 0 && n <= |st| && st[..n] == Angles(n) && (n == |st| || Closer(st[n])) && open == T.Seen(st[n..])
  }

  /** The scanner meets a row of `<` at its right end, and then every second one. */
  ghost predicate Aligned(line: string, i: int)
    requires i < |line|
  {
    i >= 0 && line[i] == '<' ==> InRow(line, i) % 2 == 1
  }

  lemma AlignedNext(line: string, i: nat)
    requires i < |line| && (line[i] != '<' || i == 0 || line[i - 1] != '<')
    ensures Aligned(line, i - 1)
  {
    if i > 0 && line[i - 1] == '<' {
      assert InRow(line, i) == 0;
    }
  }

  lemma AlignedSkip(line: string, i: nat)
    requires 0 < i < |line|
    requires (line[i] == '<' && line[i - 1] == '<' && Aligned(line, i)) || line[i - 1] != '<'
    ensures Aligned(line, i - 2)
  {
    if i > 1 && line[i - 2] == '<' {
      assert InRow(line, i - 2) == 1 + InRow(line, i - 1);
      if line[i - 1] == '<' {
        assert InRow(line, i - 1) == 1 + InRow(line, i);
      }
    }
  }

  lemma AlignedEnd(line: string)
    ensures Aligned(line, |line| - 1)
  {
    if line != [] {
      assert InRow(line, |line|) == 0;
    }
  }

  lemma {:induction false} StripAbove(low: string, top: string)
    requires T.RootedBack(top)
    ensures StripTop(low + top, '>') == low + StripTop(top, '>') && StripTop(top, '>') != []
    decreases |top|
  {
    var st := low + top;
    assert Last(st) == Last(top) && Pop(st) == low + Pop(top);
    if Last(top) == '>' {
      assert |top| > 1 && T.RootedBack(Pop(top));
      StripAbove(low, Pop(top));
    }
  }

  /** A step above other entries leaves these alone. */
  lemma StepAbove(line: string, i: nat, low: string, top: string)
    requires i < |line| && low != [] && T.RootedBack(top)
    ensures StartStep(line, i, low + top) ==
            match StartStep(line, i, top)
            case Back(top', next) => Back(low + top', next)
            case Halt(Found(_)) => Back(low, i - 1)
            case Halt(r) => Halt(r)
  {
    hide EndsWithOperator, SpacedGe;
    StripAbove(low, top);
    A.PopAbove(low, top);
    A.PopAbove(low, StripTop(top, '>'));
    assert forall c: char :: low + top + [c] == low + (top + [c]);
    T.StripTopMeaning(top, '>');
  }

  // ----- one character

  lemma ReadStep(line: string, i: nat, n: nat, open: string)
    requires i < |line| && n > 0
    ensures ReadLine(line, i, Reading(n, open)) == ReadLine(line, i - 1, Read(line, i, n, open))
  {
    hide Read;
  }

  lemma ReadOver(line: string, i: int, r: Reading)
    requires -1 <= i < |line| && (!r.Reading? || i == -1)
    ensures ReadLine(line, i, r) == r
  {
  }

  /** The character that is skipped together with `>` is none that is read outside. */
  lemma SkippedIsPlain(line: string, i: nat)
    requires i < |line| && line[i] == '>' && NotGreater(line, i)
    ensures i > 0 && !Bracket(line[i - 1]) && line[i - 1] != '<' && line[i - 1] != '>' && line[i - 1] != ';'
  {
    if line[i - 1] != '-' && !SpacedGe(line, i) {
      OperatorEnd(line[..i]);
      assert line[..i][i - 1] == line[i - 1];
    }
  }

  ghost predicate OperatorAs(s: string, a: string, b: string) {
    s == a + "operator" + b && Blanks(b) && (a == [] || !IsWord(a[|a| - 1]))
  }

  /** Text ends in the name of an operator when the word `operator` and blanks end it. */
  lemma OperatorIff(s: string)
    ensures EndsWithOperator(s) <==> exists a, b :: OperatorAs(s, a, b)
  {
    if EndsWithOperator(s) {
      RStripMeaning(s);
      var t := RStrip(s);
      assert t == t[..|t| - 8] + "operator";
      assert OperatorAs(s, t[..|t| - 8], s[|t|..]);
    }
    forall a, b | OperatorAs(s, a, b) ensures EndsWithOperator(s) {
      var t := a + "operator";
      assert t[|t| - 1] == "operator"[7] == 'r';
      RStripIs(t, b);
      assert t[|t| - 8..] == "operator";
    }
  }

  /** A comparison between blanks, as text. */
  lemma SpacedIff(line: string, i: nat)
    requires 0 < i < |line|
    ensures SpacedGe(line, i) <==> exists x, y :: IsSpace(x) && IsSpace(y) && At(line, [x, '>', '=', y], i - 1)
  {
    if i + 2 < |line| {
      assert line[i - 1..i + 3] == [line[i - 1], line[i], line[i + 1], line[i + 2]];
    }
    if SpacedGe(line, i) {
      assert At(line, [line[i - 1], '>', '=', line[i + 2]], i - 1);
    }
    forall x, y | IsSpace(x) && IsSpace(y) && At(line, [x, '>', '=', y], i - 1)
      ensures SpacedGe(line, i)
    {
      assert line[i - 1..i + 3] == [x, '>', '=', y];
    }
  }

  lemma OperatorEnd(s: string)
    requires EndsWithOperator(s)
    ensures s != [] && (s[|s| - 1] == 'r' || IsSpace(s[|s| - 1]))
  {
    RStripMeaning(s);
    var t := RStrip(s);
    assert t[|t| - 8..][7] == "operator"[7] == 'r';
  }

  lemma NextAligned(line: string, i: nat, st: string)
    requires i < |line| && Aligned(line, i)
    ensures var step := StartStep(line, i, st);
            step.Back? ==> (step.next == i - 1 || (step.next == i - 2 && i > 0)) && Aligned(line, step.next)
  {
    hide EndsWithOperator, SpacedGe, StripTop, InRow;
    if line[i] == '>' && NotGreater(line, i) {
      SkippedIsPlain(line, i);
      AlignedSkip(line, i);
    } else if line[i] == '<' && i > 0 && line[i - 1] == '<' {
      AlignedSkip(line, i);
    } else {
      AlignedNext(line, i);
    }
  }

  lemma SeenRooted(top: string)
    requires T.RootedBack(top)
    ensures T.Seen(top) != []
  {
  }

  lemma ShowsSplit(st: string, n: nat, open: string)
    requires Shows(st, n, open) && open != []
    ensures 0 < n <= |st| && st == Angles(n) + st[n..] && T.RootedBack(st[n..]) && T.Seen(st[n..]) == open
  {
    assert st[..n] + st[n..] == st;
  }

  lemma ShowsJoin(n: nat, top: string)
    requires n > 0 && (top == [] || Closer(top[0]))
    ensures Shows(Angles(n) + top, n, T.Seen(top))
  {
    var st := Angles(n) + top;
    assert st[..n] == Angles(n) && st[n..] == top;
  }

  lemma ShowsAngles(n: nat)
    requires n > 0
    ensures Shows(Angles(n), n, "")
  {
    assert Angles(n)[..n] == Angles(n) && Angles(n)[n..] == "";
  }

  lemma OnlyAngles(st: string, n: nat)
    requires Shows(st, n, "")
    ensures st == Angles(n)
  {
    assert st[..|st|] == st;
  }

  lemma FeedPlain(open: string, c: char)
    requires !Bracket(c)
    ensures Feed(open, Partner(c)) == Some(open)
  {
  }

  ghost predicate StepMeans(line: string, i: nat, before: Reading, step: BackStep, after: Reading)
    requires i < |line|
  {
    match step
    case Back(st', next) =>
      && -1 <= next < i && after.Reading? && Shows(st', after.n, after.open)
      && ReadLine(line, i, before) == ReadLine(line, next, after)
    case Halt(Found(p)) => ReadLine(line, i, before) == Ended(p) && p == i
    case Halt(Unclosed) => ReadLine(line, i, before) == Never
    case Halt(More(_)) => false
  }

  lemma InsideMeans(line: string, i: nat, st: string, n: nat, open: string) returns (after: Reading)
    requires i < |line| && Shows(st, n, open) && open != [] && Aligned(line, i)
    ensures StepMeans(line, i, Reading(n, open), StartStep(line, i, st), after)
  {
    hide StartStep, T.Seen, Shows, Feed, ReadLine;
    ShowsSplit(st, n, open);
    var top := st[n..];
    StepAbove(line, i, Angles(n), top);
    T.StartStepMeaning(line, i, top);
    ReadStep(line, i, n, open);
    after := Never;
    match StartStep(line, i, top) {
      case Back(top', next) =>
        ShowsJoin(n, top');
        SeenRooted(top');
        after := Reading(n, T.Seen(top'));
        if next == i - 2 {
          ReadStep(line, i - 1, n, T.Seen(top'));
          FeedPlain(T.Seen(top'), line[i - 1]);
        }
      case Halt(Found(_)) =>
        ShowsAngles(n);
        after := Reading(n, "");
      case Halt(_) =>
        ReadOver(line, i - 1, Never);
    }
  }

  lemma {:induction false} StripAngles(n: nat)
    ensures StripTop(Angles(n), '>') == ""
  {
    if n > 0 {
      assert Pop(Angles(n)) == Angles(n - 1) && Last(Angles(n)) == '>';
      StripAngles(n - 1);
    }
  }

  lemma SeenOne(c: char)
    requires c != '>'
    ensures T.Seen([c]) == [Partner(c)]
  {
    assert Pop([c]) == [];
  }

  /** The step of the scanner when only angle brackets are open. */
  lemma OutsideStep(line: string, i: nat, n: nat)
    requires i < |line| && n > 0
    ensures var c := line[i];
            StartStep(line, i, Angles(n)) ==
            if Closer(c) then Back(Angles(n) + [c], i - 1)
            else if Opener(c) || c == ';' then Halt(Unclosed)
            else if c == '>' then if NotGreater(line, i) then Back(Angles(n), i - 2) else Back(Angles(n + 1), i - 1)
            else if c == '<' then
              if i > 0 && line[i - 1] == '<' then Back(Angles(n), i - 2)
              else if n == 1 then Halt(Found(i)) else Back(Angles(n - 1), i - 1)
            else Back(Angles(n), i - 1)
  {
    hide EndsWithOperator, SpacedGe;
    StripAngles(n);
    assert Angles(n) + ['>'] == Angles(n + 1);
    assert Last(Angles(n)) == '>' && Pop(Angles(n)) == Angles(n - 1);
  }

  lemma OutsideMeans(line: string, i: nat, n: nat) returns (after: Reading)
    requires i < |line| && n > 0 && Aligned(line, i)
    ensures StepMeans(line, i, Reading(n, ""), StartStep(line, i, Angles(n)), after)
  {
    hide StartStep, Shows, ReadLine, EndsWithOperator, SpacedGe, InRow;
    var c := line[i];
    OutsideStep(line, i, n);
    ReadStep(line, i, n, "");
    ShowsAngles(n);
    ShowsAngles(n + 1);
    if n > 1 {
      ShowsAngles(n - 1);
    }
    after := Reading(n, "");
    if Closer(c) {
      ShowsJoin(n, [c]);
      SeenOne(c);
      after := Reading(n, [Partner(c)]);
    } else if Opener(c) || c == ';' {
      ReadOver(line, i - 1, Never);
    } else if c == '>' {
      if NotGreater(line, i) {
        SkippedIsPlain(line, i);
        ReadStep(line, i - 1, n, "");
      } else {
        after := Reading(n + 1, "");
      }
    } else if c == '<' {
      if i > 0 && line[i - 1] == '<' {
        ReadStep(line, i - 1, n, "");
        SecondOfPair(line, i);
      } else if n == 1 {
        ReadOver(line, i - 1, Ended(i));
      } else {
        after := Reading(n - 1, "");
      }
    }
  }

  lemma SecondOfPair(line: string, i: nat)
    requires 0 < i < |line| && line[i] == '<' && line[i - 1] == '<' && Aligned(line, i)
    ensures !IsLess(line, i) && !IsLess(line, i - 1)
  {
    assert InRow(line, i - 1) == 1 + InRow(line, i);
  }

  lemma StepReads(line: string, i: nat, st: string, n: nat, open: string) returns (after: Reading)
    requires i < |line| && Shows(st, n, open) && Aligned(line, i)
    ensures StepMeans(line, i, Reading(n, open), StartStep(line, i, st), after)
  {
    hide StartStep, ReadLine, T.Seen;
    if open == [] {
      OnlyAngles(st, n);
      after := OutsideMeans(line, i, n);
    } else {
      after := InsideMeans(line, i, st, n, open);
    }
  }

  // ----- a line, and many lines

  ghost predicate ResultMeans(r: ScanResult, reading: Reading) {
    match r
    case Found(p) => reading == Ended(p)
    case Unclosed => reading == Never
    case More(st) => reading.Reading? && Shows(st, reading.n, reading.open)
  }

  lemma {:induction false} ReadLineMeans(line: string, i: int, st: string, n: nat, open: string)
    requires -1 <= i < |line| && Shows(st, n, open) && Aligned(line, i)
    ensures ResultMeans(FindStart(line, i, st), ReadLine(line, i, Reading(n, open)))
    decreases i
  {
    hide StartStep, ReadLine, Shows, Aligned;
    if i == -1 {
      ReadOver(line, -1, Reading(n, open));
    } else {
      var after := StepReads(line, i, st, n, open);
      NextAligned(line, i, st);
      var step := StartStep(line, i, st);
      if step.Back? {
        assert after.n > 0 by { ShownPositive(step.stack, after.n, after.open); }
        ReadLineMeans(line, step.next, step.stack, after.n, after.open);
      }
    }
  }

  lemma ShownPositive(st: string, n: nat, open: string)
    requires Shows(st, n, open)
    ensures n > 0 && st != []
  {
  }

  lemma {:induction false} ReadLinesMeans(lines: seq<string>, l: nat, i: int, st: string, n: nat, open: string)
    requires l < |lines| && -1 <= i < |lines[l]| && Shows(st, n, open) && Aligned(lines[l], i)
    ensures ResumeReverse(lines, l, FindStart(lines[l], i, st)) == ReadLines(lines, l, i, Reading(n, open))
    decreases l
  {
    hide FindStart, ReadLine, Shows, Aligned;
    ReadLineMeans(lines[l], i, st, n, open);
    var r := FindStart(lines[l], i, st);
    if r.More? {
      var reading := ReadLine(lines[l], i, Reading(n, open));
      ShownPositive(r.stack, reading.n, reading.open);
      if l > 0 {
        AlignedEnd(lines[l - 1]);
        ReadLinesMeans(lines, l - 1, |lines[l - 1]| - 1, r.stack, reading.n, reading.open);
      }
    }
  }

  /** `>` that ends a template argument list. */
  predicate IsTemplateEnd(line: string, pos: nat)
    requires pos < |line|
  {
    line[pos] == '>' && !NotGreater(line, pos)
  }

  /** A scan that meets such a `>` with an empty stack. */
  lemma ScanFromAngle(lines: seq<string>, l: nat, pos: nat)
    requires l < |lines| && pos < |lines[l]| && IsTemplateEnd(lines[l], pos)
    ensures ResumeReverse(lines, l, FindStart(lines[l], pos, "")) == ReadLines(lines, l, pos - 1, Reading(1, ""))
  {
    var line := lines[l];
    assert "" + ['>'] == Angles(1);
    assert StartStep(line, pos, "") == Back(Angles(1), pos - 1);
    assert FindStart(line, pos, "") == FindStart(line, pos - 1, Angles(1));
    hide FindStart, StartStep, ReadLines, ResumeReverse, EndsWithOperator;
    ShowsAngles(1);
    AlignedNext(line, pos);
    ReadLinesMeans(lines, l, pos - 1, Angles(1), 1, "");
  }

  // ----- what lies between the two brackets

  /** What is read counts as brackets of the grammar, seen in a mirror, above one round bracket
      for the `>`. */
  lemma ReadFeeds(line: string, i: nat, n: nat, open: string)
    requires i < |line| && n > 0
    ensures var r := Read(line, i, n, open);
            && (r.Reading? ==> r.n > 0 && Feed("(" + open, Partner(line[i])) == Some("(" + r.open))
            && (r.Ended? ==> r.pos == i && line[i] == '<' && open == "")
  {
    hide NotGreater, InRow;
    var all := "(" + open;
    if open != [] {
      assert all[|all| - 1] == open[|open| - 1] && all[..|all| - 1] == "(" + open[..|open| - 1];
      assert all + [Partner(line[i])] == "(" + (open + [Partner(line[i])]);
    } else {
      assert "(" + open == "(";
    }
  }

  ghost predicate LineSpan(line: string, i: int, open: string, r: Reading)
    requires -1 <= i < |line|
  {
    match r
    case Ended(p) => p <= i && line[p] == '<' && FirstClose("(" + open, Mirror(line[p + 1..i + 1])) == Pending("(")
    case Never => true
    case Reading(n, open') => n > 0 && FirstClose("(" + open, Mirror(line[..i + 1])) == Pending("(" + open')
  }

  lemma MirrorRead(line: string, k: nat, i: nat, st: string)
    requires k <= i < |line| && st != []
    ensures FirstClose(st, Mirror(line[k..i + 1])) ==
            match Feed(st, Partner(line[i]))
            case None => Broken
            case Some(st') => if st' == [] then Closed(1) else Shift(1, FirstClose(st', Mirror(line[k..i])))
  {
    var m := Mirror(line[k..i + 1]);
    assert line[k..i + 1][..i - k] == line[k..i];
    assert m[0] == Partner(line[i]) && m[1..] == Mirror(line[k..i]);
  }

  lemma SpanBack(line: string, i: nat, open: string, open': string, r: Reading)
    requires i < |line| && Feed("(" + open, Partner(line[i])) == Some("(" + open') && LineSpan(line, i - 1, open', r)
    ensures LineSpan(line, i, open, r)
  {
    hide Feed, Mirror;
    match r
    case Ended(p) =>
      MirrorRead(line, p + 1, i, "(" + open);
    case Reading(_, _) =>
      MirrorRead(line, 0, i, "(" + open);
      assert line[0..i + 1] == line[..i + 1] && line[0..i] == line[..i];
    case Never =>
  }

  lemma {:induction false} ReadLineSpan(line: string, i: int, n: nat, open: string)
    requires -1 <= i < |line| && n > 0
    ensures LineSpan(line, i, open, ReadLine(line, i, Reading(n, open)))
    decreases i
  {
    if i >= 0 {
      ReadStep(line, i, n, open);
      ReadFeeds(line, i, n, open);
      var r := Read(line, i, n, open);
      hide Read, Feed;
      if r.Reading? {
        hide LineSpan, ReadLine;
        ReadLineSpan(line, i - 1, r.n, r.open);
        SpanBack(line, i, open, r.open, ReadLine(line, i - 1, r));
      } else {
        ReadOver(line, i - 1, r);
        if r.Ended? {
          assert line[i + 1..i + 1] == "" && "(" + open == "(";
        }
      }
    }
  }

  ghost predicate LinesSpan(lines: seq<string>, l: nat, i: int, open: string, p: (nat, int))
    requires l < |lines| && -1 <= i < |lines[l]|
  {
    && T.StartsBefore(lines, l, i, p)
    && lines[p.0][p.1] == '<'
    && FirstClose("(" + open, Mirror(T.Span(lines, p.0, p.1 + 1, l, i + 1))) == Pending("(")
  }

  lemma {:induction false} ReadLinesSpan(lines: seq<string>, l: nat, i: int, n: nat, open: string)
    requires l < |lines| && -1 <= i < |lines[l]| && n > 0
    ensures var p := ReadLines(lines, l, i, Reading(n, open));
            p == (0, -1) || LinesSpan(lines, l, i, open, p)
    decreases l
  {
    hide ReadLine, T.Span;
    ReadLineSpan(lines[l], i, n, open);
    var r := ReadLine(lines[l], i, Reading(n, open));
    if r.Ended? {
      T.SpanOneLine(lines, l, r.pos + 1, i + 1);
    } else if r.Reading? && l > 0 {
      ReadLinesSpan(lines, l - 1, |lines[l - 1]| - 1, r.n, r.open);
      var p := ReadLines(lines, l, i, Reading(n, open));
      if p != (0, -1) {
        LinesJoin(lines, l, i, open, r.open, p);
      }
    }
  }

  lemma LinesJoin(lines: seq<string>, l: nat, i: int, open: string, open': string, p: (nat, int))
    requires 0 < l < |lines| && -1 <= i < |lines[l]|
    requires FirstClose("(" + open, Mirror(lines[l][..i + 1])) == Pending("(" + open')
    requires LinesSpan(lines, l - 1, |lines[l - 1]| - 1, open', p)
    ensures LinesSpan(lines, l, i, open, p)
  {
    hide T.Span, Mirror, Return;
    var earlier := T.Span(lines, p.0, p.1 + 1, l - 1, |lines[l - 1]|);
    T.SpanLastLine(lines, p.0, p.1 + 1, l, i + 1);
    MirrorConcat(earlier, lines[l][..i + 1]);
    ReturnConcat("(" + open, 0, Mirror(lines[l][..i + 1]), Mirror(earlier));
  }

  lemma MirrorBalanced(s: string)
    requires Balanced(Mirror(s))
    ensures Balanced(s)
  {
    var t :| WellFormed(t) && Render(t) == Mirror(s);
    MirrorRender(t);
    MirrorTwice(s);
    assert Render(MirrorText(t)) == s;
  }

  /** `p` is a `<` before `pos`, and the text between the two is balanced. */
  ghost predicate OpensFor(lines: seq<string>, l: nat, pos: nat, p: (nat, int))
    requires l < |lines| && pos < |lines[l]|
  {
    && T.StartsBefore(lines, l, pos - 1, p)
    && lines[p.0][p.1] == '<'
    && Balanced(T.Span(lines, p.0, p.1 + 1, l, pos))
  }

  lemma ReadOpens(lines: seq<string>, l: nat, pos: nat)
    requires l < |lines| && pos < |lines[l]|
    ensures var p := ReadLines(lines, l, pos - 1, Reading(1, ""));
            p == (0, -1) || OpensFor(lines, l, pos, p)
  {
    hide ReadLines, T.Span, Balanced, Return, Mirror;
    ReadLinesSpan(lines, l, pos - 1, 1, "");
    var p := ReadLines(lines, l, pos - 1, Reading(1, ""));
    if p != (0, -1) {
      var s := T.Span(lines, p.0, p.1 + 1, l, pos);
      assert "(" + "" == "(";
      T.PendingBalanced(Mirror(s));
      MirrorBalanced(s);
    }
  }

  /** From the `>` of a template argument list, ReverseCloseExpression is the reference matcher,
      over any number of lines: in its success, its position and its failure.  Success means
      that a `<` was found before the `>` and that the text between the two is balanced. */
  lemma ReverseAngleIs(lines: seq<string>, l: nat, pos: nat)
    requires l < |lines| && pos < |lines[l]| && IsTemplateEnd(lines[l], pos)
    ensures ReverseClose(lines, l, pos) == ReadLines(lines, l, pos - 1, Reading(1, ""))
    ensures var p := ReverseClose(lines, l, pos); p == (0, -1) || OpensFor(lines, l, pos, p)
  {
    hide FindStart, ReadLines, ResumeReverse, EndsWithOperator, OpensFor;
    ScanFromAngle(lines, l, pos);
    ReadOpens(lines, l, pos);
  }

  // ----- a `>` that ends nothing

  /** A character that a scan with an empty stack passes over. */
  predicate Passed(line: string, i: nat)
    requires i < |line|
  {
    !Bracket(line[i]) && line[i] != ';' && !IsTemplateEnd(line, i)
  }

  lemma {:induction false} PassBack(line: string, q: int, i: int)
    requires -1 <= q <= i < |line|
    requires forall k | q < k <= i :: Passed(line, k)
    requires q >= 0 ==> !Passed(line, q)
    ensures FindStart(line, i, "") == FindStart(line, q, "")
    decreases i
  {
    hide EndsWithOperator, SpacedGe;
    if q < i {
      assert Passed(line, i);
      if line[i] == '>' {
        SkippedIsPlain(line, i);
        assert Passed(line, i - 1);
        PassBack(line, q, i - 2);
      } else if line[i] == '<' && i > 0 && line[i - 1] == '<' {
        assert Passed(line, i - 1);
        PassBack(line, q, i - 2);
      } else {
        PassBack(line, q, i - 1);
      }
    }
  }

  /** From the `>` of an arrow, a comparison or an operator, the search goes back to the next
      bracket of the line (at `q`; -1 if there is none), and is the search from there.  If there
      is none, or a semicolon or an opening bracket comes first, the search fails. */
  lemma NoTemplateEnd(lines: seq<string>, l: nat, q: int, pos: nat)
    requires l < |lines| && -1 <= q < pos < |lines[l]| && lines[l][pos] == '>'
    requires forall k | q < k <= pos :: Passed(lines[l], k)
    requires q >= 0 ==> !Passed(lines[l], q)
    ensures q == -1 ==> ReverseClose(lines, l, pos) == (0, -1)
    ensures q >= 0 ==>
              ReverseClose(lines, l, pos) ==
              if Closer(lines[l][q]) || lines[l][q] == '>' then ReverseClose(lines, l, q) else (0, -1)
  {
    PassBack(lines[l], q, pos);
    hide EndsWithOperator, SpacedGe;
  }

  // ----- where no search begins

  lemma PairAt(line: string, a: char, b: char, pos: nat)
    requires pos < |line|
    ensures At(line, [a, b], pos) <==> pos + 1 < |line| && line[pos] == a && line[pos + 1] == b
  {
    if pos + 1 < |line| {
      assert line[pos..pos + 2] == [line[pos], line[pos + 1]];
    }
  }

  /** A position without an opening bracket, or at `<<` or `<=`, has no end; one without a
      closing bracket has no start. */
  lemma NoSearch(lines: seq<string>, l: nat, pos: nat)
    requires l < |lines| && pos < |lines[l]|
    ensures lines[l][pos] !in "({[<" || At(lines[l], "<<", pos) || At(lines[l], "<=", pos) ==>
              Close(lines, l, pos) == (|lines|, -1)
    ensures lines[l][pos] !in ")}]>" ==> ReverseClose(lines, l, pos) == (0, -1)
    ensures ShiftOrLessEqual(lines[l], pos) <==> At(lines[l], "<<", pos) || At(lines[l], "<=", pos)
  {
    hide At, FindEnd, FindStart, ResumeClose, ResumeReverse;
    PairAt(lines[l], '<', '<', pos);
    PairAt(lines[l], '<', '=', pos);
  }
}
