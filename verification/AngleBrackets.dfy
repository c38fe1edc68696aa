/** What CloseExpression does from `<`: a reference matcher that counts angle brackets outside
    of round, square and curly ones, and ignores them inside. */
module AngleBrackets {
  import opened Chars
  import opened Dyck
  import opened BracketScan
  import opened BracketTheorems

  /** `<` that is the second half of a shift, or the name of an operator. */
  predicate SecondOfShift(line: string, i: nat)
    requires i <= |line|
  {
    i > 0 && line[i - 1] == '<'
  }

  predicate LessOperator(line: string, i: nat)
    requires i <= |line|
  {
    i > 0 && EndsWithOperator(line[..i])
  }

  /** `>` that belongs to an arrow or to the name of an operator. */
  predicate NotGreater(line: string, i: nat)
    requires i <= |line|
  {
    i > 0 && (line[i - 1] == '-' || EndsWithOperator(line[..i - 1]))
  }

  /** Where the reference matcher is: `n` angle brackets are open, and above them the brackets
      `open`; or it has found the end, or there is none. */
  datatype Reading = Reading(n: nat, open: string) | Ended(pos: nat) | Never

  /** Inside of brackets only brackets matter.  Outside, a semicolon or a closing bracket means
      that there is no end, and so does a shift that takes back the only `<`. */
  function Read(line: string, i: nat, n: nat, open: string): Reading
    requires i < |line| && n > 0
  {
    var c := line[i];
    if open != [] then
      match Feed(open, c)
      case None => Never
      case Some(open') => Reading(n, open')
    else if Opener(c) then Reading(n, [c])
    else if Closer(c) || c == ';' then Never
    else if c == '<' then
      if SecondOfShift(line, i) then (if n == 1 then Never else Reading(n - 1, []))
      else if LessOperator(line, i) then Reading(n, [])
      else Reading(n + 1, [])
    else if c == '>' && !NotGreater(line, i) then
      if n == 1 then Ended(i + 1) else Reading(n - 1, [])
    else Reading(n, [])
  }

  function ReadLine(line: string, i: nat, r: Reading): Reading
    requires i <= |line|
    decreases |line| - i
  {
    if !r.Reading? || r.n == 0 || i == |line| then r
    else ReadLine(line, i + 1, Read(line, i, r.n, r.open))
  }

  function ReadLines(lines: seq<string>, l: nat, i: nat, r: Reading): (nat, int)
    requires l < |lines| && i <= |lines[l]|
    decreases |lines| - l
  {
    match ReadLine(lines[l], i, r)
    case Ended(e) => (l, e as int)
    case Never => (|lines|, -1)
    case Reading(n, open) => if l + 1 == |lines| then (|lines|, -1) else ReadLines(lines, l + 1, 0, Reading(n, open))
  }

  // ----- the stack of the scanner

  function Angles(n: nat): (s: string)
    ensures |s| == n && forall k | 0 <= k < n :: s[k] == '<'
  {
    seq(n, _ => '<')
  }

  /** The stack has `n` angle brackets at the bottom, and above them the brackets `open`, mixed
      with guesses. */
  ghost predicate Shows(st: string, n: nat, open: string) {
    n > 0 && n <= |st| && st[..n] == Angles(n) && (n == |st| || Opener(st[n])) && open == Erase(st[n..], '<')
  }

  lemma {:induction false} StripAbove(low: string, top: string)
    requires Rooted(top)
    ensures StripTop(low + top, '<') == low + StripTop(top, '<') && StripTop(top, '<') != []
    decreases |top|
  {
    var st := low + top;
    assert Last(st) == Last(top) && Pop(st) == low + Pop(top);
    if Last(top) == '<' {
      assert |top| > 1 && Rooted(Pop(top));
      StripAbove(low, Pop(top));
    }
  }

  lemma PopAbove(low: string, top: string)
    requires top != []
    ensures low + top != [] && Last(low + top) == Last(top) && Pop(low + top) == low + Pop(top)
  {
  }

  /** A step above other entries leaves these alone. */
  lemma StepAbove(line: string, i: nat, low: string, top: string)
    requires i < |line| && low != [] && Rooted(top)
    ensures EndStep(line, i, low + top) ==
            match EndStep(line, i, top)
            case Go(top') => Go(low + top')
            case Stop(Found(_)) => Go(low)
            case Stop(r) => Stop(r)
  {
    hide EndsWithOperator;
    StripAbove(low, top);
    PopAbove(low, top);
    PopAbove(low, StripTop(top, '<'));
    assert forall c: char :: low + top + [c] == low + (top + [c]);
    StripTopMeaning(top, '<');
  }

  ghost predicate StepMeans(step: Step, r: Reading) {
    match step
    case Go(st') => r.Reading? && Shows(st', r.n, r.open)
    case Stop(Found(e)) => r == Ended(e)
    case Stop(Unclosed) => r == Never
    case Stop(More(_)) => false
  }

  lemma ShowsSplit(st: string, n: nat, open: string)
    requires Shows(st, n, open) && open != []
    ensures 0 < n <= |st| && st == Angles(n) + st[n..] && Rooted(st[n..])
  {
    assert st[..n] + st[n..] == st;
  }

  lemma ShowsJoin(n: nat, top: string)
    requires n > 0 && (top == [] || Opener(top[0]))
    ensures Shows(Angles(n) + top, n, Erase(top, '<'))
  {
    var st := Angles(n) + top;
    assert st[..n] == Angles(n) && st[n..] == top;
  }

  lemma InsideMeans(line: string, i: nat, st: string, n: nat, open: string)
    requires i < |line| && Shows(st, n, open) && open != []
    ensures StepMeans(EndStep(line, i, st), Read(line, i, n, open))
  {
    hide EndStep, Erase, Shows, Feed;
    ShowsSplit(st, n, open);
    var top := st[n..];
    assert Erase(top, '<') == open by { ShownAbove(st, n, open); }
    StepAbove(line, i, Angles(n), top);
    EndStepMeaning(line, i, top);
    match EndStep(line, i, top)
    case Go(top') => ShowsJoin(n, top');
    case Stop(Found(_)) =>
      ShowsJoin(n, "");
      assert Angles(n) + "" == Angles(n);
      assert Erase("", '<') == "" by { EraseNothing(); }
    case Stop(_) =>
  }

  lemma ShownAbove(st: string, n: nat, open: string)
    requires Shows(st, n, open)
    ensures n <= |st| && Erase(st[n..], '<') == open
  {
  }

  lemma EraseNothing()
    ensures Erase("", '<') == ""
  {
  }

  lemma {:induction false} StripAngles(n: nat)
    ensures StripTop(Angles(n), '<') == ""
  {
    if n > 0 {
      assert Pop(Angles(n)) == Angles(n - 1) && Last(Angles(n)) == '<';
      StripAngles(n - 1);
    }
  }

  lemma OnlyAngles(st: string, n: nat)
    requires Shows(st, n, "")
    ensures st == Angles(n)
  {
    assert st[..|st|] == st;
  }

  lemma ShowsAngles(n: nat)
    requires n > 0
    ensures Shows(Angles(n), n, "")
  {
    assert Angles(n)[..n] == Angles(n) && Angles(n)[n..] == "";
  }

  lemma OutsideMeans(line: string, i: nat, n: nat)
    requires i < |line| && n > 0
    ensures StepMeans(EndStep(line, i, Angles(n)), Read(line, i, n, ""))
  {
    hide EndsWithOperator, Erase, Shows;
    var st, c := Angles(n), line[i];
    StripAngles(n);
    ShowsAngles(n);
    ShowsAngles(n + 1);
    assert st + ['<'] == Angles(n + 1);
    assert Last(st) == '<' && Pop(st) == Angles(n - 1);
    if n > 1 {
      ShowsAngles(n - 1);
    }
    if Opener(c) {
      ShowsJoin(n, [c]);
      assert Erase([c], '<') == [c] by { EraseBracket(c); }
    }
  }

  /** One character: the scanner and the reference matcher do the same. */
  lemma ReadMeans(line: string, i: nat, st: string, n: nat, open: string)
    requires i < |line| && Shows(st, n, open)
    ensures StepMeans(EndStep(line, i, st), Read(line, i, n, open))
  {
    hide EndStep, Read;
    if open == [] {
      OnlyAngles(st, n);
      OutsideMeans(line, i, n);
    } else {
      InsideMeans(line, i, st, n, open);
    }
  }

  ghost predicate ResultMeans(r: ScanResult, reading: Reading) {
    match r
    case Found(e) => reading == Ended(e)
    case Unclosed => reading == Never
    case More(st) => reading.Reading? && Shows(st, reading.n, reading.open)
  }

  lemma {:induction false} ReadLineMeans(line: string, i: nat, st: string, n: nat, open: string)
    requires i <= |line| && Shows(st, n, open)
    ensures ResultMeans(FindEnd(line, i, st), ReadLine(line, i, Reading(n, open)))
    decreases |line| - i
  {
    hide EndStep, Read, Erase;
    if i < |line| {
      ReadMeans(line, i, st, n, open);
      var step := EndStep(line, i, st);
      if step.Go? {
        var r := Read(line, i, n, open);
        ReadLineMeans(line, i + 1, step.stack, r.n, r.open);
      }
    }
  }

  lemma {:induction false} ReadLinesMeans(lines: seq<string>, l: nat, i: nat, st: string, n: nat, open: string)
    requires l < |lines| && i <= |lines[l]| && Shows(st, n, open)
    ensures ResumeClose(lines, l, FindEnd(lines[l], i, st)) == ReadLines(lines, l, i, Reading(n, open))
    decreases |lines| - l
  {
    hide FindEnd, ReadLine, Erase;
    ReadLineMeans(lines[l], i, st, n, open);
    var r := FindEnd(lines[l], i, st);
    if r.More? && l + 1 < |lines| {
      var reading := ReadLine(lines[l], i, Reading(n, open));
      ReadLinesMeans(lines, l + 1, 0, r.stack, reading.n, reading.open);
    }
  }

  /** A scan that meets the `<` of a template argument list with an empty stack. */
  lemma ScanFromAngle(lines: seq<string>, l: nat, pos: nat)
    requires l < |lines| && pos < |lines[l]| && IsTemplateStart(lines[l], pos)
    ensures ResumeClose(lines, l, FindEnd(lines[l], pos, "")) == ReadLines(lines, l, pos + 1, Reading(1, ""))
  {
    hide FindEnd, ReadLines, ResumeClose, EndsWithOperator;
    OpenForward(lines[l], pos);
    ShowsAngles(1);
    assert Angles(1) == "<" == [lines[l][pos]];
    ReadLinesMeans(lines, l, pos + 1, "<", 1, "");
  }

  /** From the `<` of a template argument list, CloseExpression is the reference matcher, over
      any number of lines: in its success, its position and its failure.  Success means that a
      `>` was found and that the text between the two is balanced. */
  lemma AngleCloseIs(lines: seq<string>, l: nat, pos: nat)
    requires l < |lines| && pos < |lines[l]| && IsTemplateStart(lines[l], pos)
    ensures Close(lines, l, pos) ==
            if ShiftOrLessEqual(lines[l], pos) then (|lines|, -1) else ReadLines(lines, l, pos + 1, Reading(1, ""))
    ensures var p := Close(lines, l, pos);
            p.1 >= 0 ==>
              && EndsAfter(lines, l, pos + 1, p)
              && lines[p.0][p.1 - 1] == '>'
              && Balanced(BracketTheorems.Span(lines, l, pos + 1, p.0, p.1 - 1))
  {
    ScanFromAngle(lines, l, pos);
    if Close(lines, l, pos).1 >= 0 {
      AngleCloseBalanced(lines, l, pos);
    }
    hide FindEnd, ReadLines, ResumeClose, EndsWithOperator, BracketTheorems.Span, Balanced;
  }

  // ----- a `<` that starts nothing

  /** A character that a scan with an empty stack passes over. */
  predicate Passed(line: string, i: nat)
    requires i < |line|
  {
    var c := line[i];
    !Opener(c) && !Closer(c) && c != ';' && !IsTemplateStart(line, i)
  }

  lemma {:induction false} PassOver(line: string, i: nat, q: nat)
    requires i <= q <= |line| && forall k | i <= k < q :: Passed(line, k)
    ensures FindEnd(line, i, "") == FindEnd(line, q, "")
    decreases q - i
  {
    hide EndsWithOperator;
    if i < q {
      assert Passed(line, i);
      PassOver(line, i + 1, q);
    }
  }

  /** From a `<` after another one or after `operator`, the search goes on to the next bracket
      of the line.  At a round, square or curly one it is the search from there.  At the `<` of
      a template argument list it is the reference matcher from there, also where a search that
      starts there would stop at `<=` or `<<`.  If there is no bracket, or a semicolon or a
      closing bracket comes before it, the search fails. */
  lemma NoTemplateStart(lines: seq<string>, l: nat, pos: nat, q: nat)
    requires l < |lines| && pos < q <= |lines[l]| && lines[l][pos] == '<' && !ShiftOrLessEqual(lines[l], pos)
    requires forall k | pos <= k < q :: Passed(lines[l], k)
    ensures q == |lines[l]| ==> Close(lines, l, pos) == (|lines|, -1)
    ensures q < |lines[l]| ==>
              var c := lines[l][q];
              && (Closer(c) || c == ';' ==> Close(lines, l, pos) == (|lines|, -1))
              && (Opener(c) ==> Close(lines, l, pos) == Close(lines, l, q))
              && (IsTemplateStart(lines[l], q) ==> Close(lines, l, pos) == ReadLines(lines, l, q + 1, Reading(1, "")))
  {
    PassOver(lines[l], pos, q);
    if q < |lines[l]| && IsTemplateStart(lines[l], q) {
      ScanFromAngle(lines, l, q);
    }
    hide EndsWithOperator, ReadLines;
  }
}
