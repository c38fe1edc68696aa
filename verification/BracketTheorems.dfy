/** What the bracket scanners compute, in terms of the grammar of balanced text. */
module BracketTheorems {
  import opened Chars
  import opened Dyck
  import opened BracketScan

  /** The brackets on a scanner's stack, without the guesses `a`. */
  function Erase(st: string, a: char): (r: string)
    ensures |r| <= |st|
    ensures st != [] && st[0] != a ==> r != [] && r[0] == st[0]
    ensures a !in r
  {
    if st == [] then ""
    else if Last(st) == a then Erase(Pop(st), a)
    else Erase(Pop(st), a) + [Last(st)]
  }

  lemma {:induction false} EraseStrip(st: string, a: char)
    ensures Erase(StripTop(st, a), a) == Erase(st, a)
  {
    if st != [] && Last(st) == a {
      EraseStrip(Pop(st), a);
    }
  }

  /** Stripping stops at the innermost bracket, and only at the bottom if there is none. */
  lemma {:induction false} StripTopMeaning(st: string, a: char)
    ensures StripTop(st, a) <= st
    ensures StripTop(st, a) != [] ==> Last(StripTop(st, a)) != a
    ensures st != [] && st[0] != a ==> StripTop(st, a) != []
  {
    if st != [] && Last(st) == a {
      StripTopMeaning(Pop(st), a);
    }
  }

  lemma ErasePush(st: string, c: char, a: char)
    ensures Erase(st + [c], a) == if c == a then Erase(st, a) else Erase(st, a) + [c]
  {
    assert Pop(st + [c]) == st;
  }

  /** Below the pending guesses stands the innermost bracket. */
  lemma Innermost(st: string, a: char)
    requires st != [] && st[0] != a
    ensures var kept := StripTop(st, a);
            && kept != [] && kept[0] == st[0]
            && Erase(st, a) == Erase(Pop(kept), a) + [Last(kept)]
            && (|kept| > 1 ==> Pop(kept)[0] == st[0])
  {
    StripTopMeaning(st, a);
    EraseStrip(st, a);
  }

  // ----- left to right: one character, one line, many lines

  /** A stack that a scan from a round, square or curly bracket can reach. */
  ghost predicate Rooted(st: string) {
    st != [] && Opener(st[0])
  }

  /** Guesses come and go without any effect on the brackets. */
  lemma PopGuessMeaning(st: string, a: char, atEmpty: ScanResult)
    requires st != [] && st[0] != a
    ensures var step := PopGuess(st, a, atEmpty);
            step.Go? && step.stack != [] && step.stack[0] == st[0] && Erase(step.stack, a) == Erase(st, a)
  {
  }

  lemma FeedCloser(st: string, c: char)
    requires Rooted(st) && Closer(c)
    ensures var kept := StripTop(st, '<');
            && kept != []
            && (|kept| > 1 ==> Rooted(Pop(kept)))
            && Feed(Erase(st, '<'), c) ==
               (if Last(kept) == Partner(c) then Some(Erase(Pop(kept), '<')) else None)
  {
    Innermost(st, '<');
    var kept := StripTop(st, '<');
    var all := Erase(st, '<');
    assert all[..|all| - 1] == Erase(Pop(kept), '<');
    assert all[|all| - 1] == Last(kept);
    assert Partner(Partner(c)) == c && Partner(Partner(Last(kept))) == Last(kept);
  }

  /** What a step of the scan does to the brackets is what the recogniser does. */
  ghost predicate EndStepMeans(step: Step, i: nat, st: string, c: char) {
    var fed := Feed(Erase(st, '<'), c);
    match step
    case Go(st') => Rooted(st') && fed == Some(Erase(st', '<'))
    case Stop(Found(e)) => e == i + 1 && fed == Some("")
    case Stop(Unclosed) => fed == None
    case Stop(More(_)) => false
  }

  /** One step of the forward scan is one step of the recogniser, whatever `<`, `>`,
      `->`, `<<`, `operator` and `;` do to the guesses. */
  lemma EndStepMeaning(line: string, i: nat, st: string)
    requires i < |line| && Rooted(st)
    ensures EndStepMeans(EndStep(line, i, st), i, st, line[i])
  {
    var c := line[i];
    if Opener(c) || c == '<' {
      ErasePush(st, c, '<');
      PopGuessMeaning(st, '<', Unclosed);
    } else if Closer(c) {
      FeedCloser(st, c);
    } else if c == '>' {
      PopGuessMeaning(st, '<', Found(i + 1));
    } else if c == ';' {
      Innermost(st, '<');
      EraseStrip(st, '<');
    }
  }

  lemma OpenForward(line: string, pos: nat)
    requires pos < |line| && (Opener(line[pos]) || IsTemplateStart(line, pos))
    ensures FindEnd(line, pos, "") == FindEnd(line, pos + 1, [line[pos]])
  {
    assert "" + [line[pos]] == [line[pos]];
  }

  /** A `<` that the scan takes for the start of a template argument list. */
  predicate IsTemplateStart(line: string, pos: nat)
    requires pos < |line|
  {
    line[pos] == '<' && (pos == 0 || (line[pos - 1] != '<' && !EndsWithOperator(line[..pos])))
  }

  /** Reading the rest of a line from its first character on. */
  lemma LineStep(line: string, i: nat, st: string)
    requires i < |line| && st != []
    ensures FirstClose(st, line[i..]) ==
            match Feed(st, line[i])
            case None => Broken
            case Some(st') => if st' == [] then Closed(1) else Shift(1, FirstClose(st', line[i + 1..]))
  {
    assert line[i..][0] == line[i] && line[i..][1..] == line[i + 1..];
  }

  /** `r` says of line `line` from `i` on what the recogniser says. */
  ghost predicate LineMeans(line: string, i: nat, st: string, r: ScanResult)
    requires i <= |line| && Rooted(st)
  {
    var means := FirstClose(Erase(st, '<'), line[i..]);
    match r
    case Found(e) => i <= e && means == Closed(e - i)
    case Unclosed => means == Broken
    case More(st') => Rooted(st') && means == Pending(Erase(st', '<'))
  }

  lemma StepThenLine(line: string, i: nat, st: string, step: Step, r: ScanResult)
    requires i < |line| && Rooted(st) && EndStepMeans(step, i, st, line[i])
    requires if step.Go? then LineMeans(line, i + 1, step.stack, r) else step.result == r
    ensures LineMeans(line, i, st, r)
  {
    LineStep(line, i, Erase(st, '<'));
  }

  lemma {:induction false} FindEndMeaning(line: string, i: nat, st: string)
    requires i <= |line| && Rooted(st)
    ensures LineMeans(line, i, st, FindEnd(line, i, st))
    decreases |line| - i
  {
    if i < |line| {
      EndStepMeaning(line, i, st);
      var step := EndStep(line, i, st);
      if step.Go? {
        FindEndMeaning(line, i + 1, step.stack);
      }
      StepThenLine(line, i, st, step, FindEnd(line, i, st));
    }
  }

  /** All text from position `i` of line `l` on. */
  function Tail(lines: seq<string>, l: nat, i: nat): string
    requires l < |lines| && i <= |lines[l]|
    decreases |lines| - l
  {
    lines[l][i..] + (if l + 1 < |lines| then Tail(lines, l + 1, 0) else "")
  }

  /** The text from position `i` of line `l` up to position `e` of line `m`. */
  function Span(lines: seq<string>, l: nat, i: nat, m: nat, e: nat): string
    requires l <= m < |lines| && i <= |lines[l]| && e <= |lines[m]| && (l == m ==> i <= e)
    decreases m - l
  {
    if l == m then lines[l][i..e] else lines[l][i..] + Span(lines, l + 1, 0, m, e)
  }

  lemma {:induction false} SpanOfTail(lines: seq<string>, l: nat, i: nat, m: nat, e: nat)
    requires l <= m < |lines| && i <= |lines[l]| && e <= |lines[m]| && (l == m ==> i <= e)
    ensures Span(lines, l, i, m, e) <= Tail(lines, l, i)
    decreases m - l
  {
    if l == m {
      assert lines[l][i..e] <= lines[l][i..];
    } else {
      SpanOfTail(lines, l + 1, 0, m, e);
    }
  }

  /** `p` is where the recogniser stops when it reads on from `(l, i)`. */
  ghost predicate ForwardMeans(lines: seq<string>, l: nat, i: nat, st: string, p: (nat, int))
    requires l < |lines| && i <= |lines[l]| && st != []
  {
    var r := FirstClose(st, Tail(lines, l, i));
    if r.Closed? then EndsAfter(lines, l, i, p) && r.end == |Span(lines, l, i, p.0, p.1)|
    else p == (|lines|, -1)
  }

  /** The scan over many lines is the recogniser over their concatenation. */
  lemma {:induction false} ResumeMeaning(lines: seq<string>, l: nat, i: nat, st: string)
    requires l < |lines| && i <= |lines[l]| && Rooted(st)
    ensures ForwardMeans(lines, l, i, Erase(st, '<'), ResumeClose(lines, l, FindEnd(lines[l], i, st)))
    decreases |lines| - l
  {
    var r := FindEnd(lines[l], i, st);
    FindEndMeaning(lines[l], i, st);
    if r.More? && l + 1 < |lines| {
      ResumeMeaning(lines, l + 1, 0, r.stack);
    }
    LineThenLater(lines, l, i, st, r, ResumeClose(lines, l, r));
  }

  lemma LineThenLater(lines: seq<string>, l: nat, i: nat, st: string, r: ScanResult, p: (nat, int))
    requires l < |lines| && i <= |lines[l]| && Rooted(st) && LineMeans(lines[l], i, st, r)
    requires match r
             case Found(e) => p == (l, e as int)
             case Unclosed => p == (|lines|, -1)
             case More(st') =>
               if l + 1 == |lines| then p == (|lines|, -1) else ForwardMeans(lines, l + 1, 0, Erase(st', '<'), p)
    ensures ForwardMeans(lines, l, i, Erase(st, '<'), p)
  {
    var rest := if l + 1 < |lines| then Tail(lines, l + 1, 0) else "";
    ReturnConcat(Erase(st, '<'), 0, lines[l][i..], rest);
  }

  /** Two ends after the same start that delimit equally long text are the same end. */
  lemma {:induction false} SpanLengthInjective(lines: seq<string>, l: nat, i: nat, p: (nat, int), q: (nat, int))
    requires l < |lines| && i <= |lines[l]|
    requires EndsAfter(lines, l, i, p) && EndsAfter(lines, l, i, q)
    requires |Span(lines, l, i, p.0, p.1)| == |Span(lines, l, i, q.0, q.1)|
    ensures p == q
    decreases |lines| - l
  {
    if l < p.0 && l < q.0 {
      SpanLengthInjective(lines, l + 1, 0, p, q);
    } else if l < p.0 {
      SpanNonempty(lines, l + 1, p);
    } else if l < q.0 {
      SpanNonempty(lines, l + 1, q);
    }
  }

  lemma {:induction false} SpanNonempty(lines: seq<string>, l: nat, p: (nat, int))
    requires l < |lines| && EndsAfter(lines, l, 0, p)
    ensures |Span(lines, l, 0, p.0, p.1)| >= 1
    decreases |lines| - l
  {
    if l < p.0 {
      SpanNonempty(lines, l + 1, p);
    }
  }

  lemma SpanFirst(lines: seq<string>, l: nat, i: nat, p: (nat, int))
    requires l < |lines| && i < |lines[l]| && EndsAfter(lines, l, i, p)
    ensures Span(lines, l, i, p.0, p.1) == [lines[l][i]] + Span(lines, l, i + 1, p.0, p.1)
  {
  }

  lemma EraseBracket(o: char)
    requires o != '<'
    ensures Erase([o], '<') == [o]
  {
    assert Pop([o]) == [];
  }

  /** The search from a bracket is the recogniser on the text after it. */
  lemma CloseMeaning(lines: seq<string>, l: nat, pos: nat)
    requires l < |lines| && pos < |lines[l]| && Opener(lines[l][pos])
    ensures ForwardMeans(lines, l, pos + 1, [lines[l][pos]], Close(lines, l, pos))
  {
    hide FindEnd, ForwardMeans, Erase, ResumeClose;
    OpenForward(lines[l], pos);
    EraseBracket(lines[l][pos]);
    ResumeMeaning(lines, l, pos + 1, [lines[l][pos]]);
  }

  /** A group that ends at `p`, as the recogniser sees it. */
  lemma GroupAt(lines: seq<string>, l: nat, pos: nat, p: (nat, int))
    requires l < |lines| && pos < |lines[l]| && Opener(lines[l][pos]) && EndsAfter(lines, l, pos, p)
    ensures IsGroup(Span(lines, l, pos, p.0, p.1)) <==>
            FirstClose([lines[l][pos]], Tail(lines, l, pos + 1)) == Closed(|Span(lines, l, pos + 1, p.0, p.1)|)
  {
    hide IsGroup, Tail, Span, FirstClose;
    SpanFirst(lines, l, pos, p);
    SpanOfTail(lines, l, pos + 1, p.0, p.1);
    var s, tail := Span(lines, l, pos + 1, p.0, p.1), Tail(lines, l, pos + 1);
    assert s == tail[..|s|];
    GroupIffClosed(lines[l][pos], tail, |s|);
  }

  lemma EmptySpan(lines: seq<string>, l: nat, pos: nat, p: (nat, int))
    requires l < |lines| && pos < |lines[l]| && EndsAfter(lines, l, pos, p) && !EndsAfter(lines, l, pos + 1, p)
    ensures Span(lines, l, pos + 1, p.0, p.1) == []
  {
  }

  /** CloseExpression from a round, square or curly bracket: it answers with a position
      exactly when the text from the bracket to that position is a group of the grammar.
      Failure means that no end in the file makes a group. */
  lemma CloseIffGroup(lines: seq<string>, l: nat, pos: nat, p: (nat, int))
    requires l < |lines| && pos < |lines[l]| && Opener(lines[l][pos])
    requires EndsAfter(lines, l, pos, p)
    ensures Close(lines, l, pos) == p <==> IsGroup(Span(lines, l, pos, p.0, p.1))
  {
    hide IsGroup, Tail, Span, FirstClose, Close;
    CloseMeaning(lines, l, pos);
    GroupAt(lines, l, pos, p);
    if IsGroup(Span(lines, l, pos, p.0, p.1)) {
      if !EndsAfter(lines, l, pos + 1, p) {
        EmptySpan(lines, l, pos, p);
      } else {
        SpanLengthInjective(lines, l, pos + 1, Close(lines, l, pos), p);
      }
    }
  }

  /** Either way a position or the failure value comes back. */
  lemma CloseTotal(lines: seq<string>, l: nat, pos: nat)
    requires l < |lines| && pos < |lines[l]| && Opener(lines[l][pos])
    ensures Close(lines, l, pos) == (|lines|, -1) <==>
            forall p | EndsAfter(lines, l, pos, p) :: !IsGroup(Span(lines, l, pos, p.0, p.1))
  {
    ClosePast(lines, l, pos);
    if Close(lines, l, pos) == (|lines|, -1) {
      forall p | EndsAfter(lines, l, pos, p)
        ensures !IsGroup(Span(lines, l, pos, p.0, p.1))
      {
        CloseIffGroup(lines, l, pos, p);
      }
    } else {
      CloseIffGroup(lines, l, pos, Close(lines, l, pos));
    }
  }

  // ----- a start at '<'

  /** The stack of a scan from `<`, with that `<` counted as a round bracket. */
  function Ground(st: string): string {
    "(" + Erase(st, '<')
  }

  lemma GroundCloser(st: string, c: char)
    requires st != [] && st[0] == '<' && Closer(c) && StripTop(st, '<') != []
    ensures var kept := StripTop(st, '<');
            && |kept| > 1 && Pop(kept)[0] == '<'
            && (Last(kept) == Partner(c) ==> Feed(Ground(st), c) == Some(Ground(Pop(kept))))
  {
    StripTopMeaning(st, '<');
    EraseStrip(st, '<');
    var kept := StripTop(st, '<');
    var all := Ground(st);
    assert all == Ground(Pop(kept)) + [Last(kept)];
    assert all[..|all| - 1] == Ground(Pop(kept));
    assert Partner(Partner(c)) == c;
  }

  lemma AngleStepMeaning(line: string, i: nat, st: string)
    requires i < |line| && st != [] && st[0] == '<'
    ensures match EndStep(line, i, st)
            case Go(st') => st' != [] && st'[0] == '<' && Feed(Ground(st), line[i]) == Some(Ground(st'))
            case Stop(Found(e)) => e == i + 1 && line[i] == '>' && Ground(st) == "("
            case Stop(_) => true
  {
    var c := line[i];
    if Opener(c) {
      ErasePush(st, c, '<');
      assert Ground(st + [c]) == Ground(st) + [c];
    } else if c == '<' {
      ErasePush(st, c, '<');
    } else if Closer(c) {
      if StripTop(st, '<') != [] {
        GroundCloser(st, c);
      }
    } else if c == ';' {
      StripTopMeaning(st, '<');
      EraseStrip(st, '<');
    }
  }

  ghost predicate AngleMeans(line: string, i: nat, st: string, r: ScanResult)
    requires i <= |line|
  {
    match r
    case Found(e) => i < e <= |line| && line[e - 1] == '>' && FirstClose(Ground(st), line[i..e - 1]) == Pending("(")
    case Unclosed => true
    case More(st') => st' != [] && st'[0] == '<' && FirstClose(Ground(st), line[i..]) == Pending(Ground(st'))
  }

  lemma AngleStepThen(line: string, i: nat, st: string, st': string, r: ScanResult)
    requires i < |line| && Feed(Ground(st), line[i]) == Some(Ground(st'))
    requires AngleMeans(line, i + 1, st', r)
    ensures AngleMeans(line, i, st, r)
  {
    if r.Found? {
      var s := line[i..r.pos - 1];
      assert s[0] == line[i] && s[1..] == line[i + 1..r.pos - 1];
    } else if r.More? {
      LineStep(line, i, Ground(st));
    }
  }

  lemma {:induction false} AngleLine(line: string, i: nat, st: string)
    requires i <= |line| && st != [] && st[0] == '<'
    ensures AngleMeans(line, i, st, FindEnd(line, i, st))
    decreases |line| - i
  {
    if i < |line| {
      AngleStepMeaning(line, i, st);
      var step := EndStep(line, i, st);
      if step.Go? {
        AngleLine(line, i + 1, step.stack);
        AngleStepThen(line, i, st, step.stack, FindEnd(line, i, st));
      }
    }
  }

  /** The scan has come from `(l, i)` to a closing `>` over balanced text. */
  ghost predicate AngleSpan(lines: seq<string>, l: nat, i: nat, st: string, p: (nat, int))
    requires l < |lines| && i <= |lines[l]|
  {
    && EndsAfter(lines, l, i, p)
    && lines[p.0][p.1 - 1] == '>'
    && FirstClose(Ground(st), Span(lines, l, i, p.0, p.1 - 1)) == Pending("(")
  }

  lemma {:induction false} AngleLines(lines: seq<string>, l: nat, i: nat, st: string)
    requires l < |lines| && i <= |lines[l]| && st != [] && st[0] == '<'
    ensures var p := ResumeClose(lines, l, FindEnd(lines[l], i, st));
            p.1 >= 0 ==> AngleSpan(lines, l, i, st, p)
    decreases |lines| - l
  {
    var r := FindEnd(lines[l], i, st);
    AngleLine(lines[l], i, st);
    if r.More? && l + 1 < |lines| {
      AngleLines(lines, l + 1, 0, r.stack);
      var p := ResumeClose(lines, l + 1, FindEnd(lines[l + 1], 0, r.stack));
      if p.1 >= 0 {
        ReturnConcat(Ground(st), 0, lines[l][i..], Span(lines, l + 1, 0, p.0, p.1 - 1));
      }
    }
  }

  lemma PendingBalanced(s: string)
    requires FirstClose("(", s) == Pending("(")
    ensures Balanced(s)
  {
    ReturnConcat("(", 0, s, ")");
    assert (s + ")")[..|s| + 1] == s + ")";
    GroupIffClosed('(', s + ")", |s| + 1);
    var g := "(" + (s + ")");
    assert g[1..|g| - 1] == s;
  }

  /** From a `<` that opens a template argument list (no `<` or `operator` before it),
      success means a `>` was found and the text between the two is balanced. */
  lemma AngleCloseBalanced(lines: seq<string>, l: nat, pos: nat)
    requires l < |lines| && pos < |lines[l]| && IsTemplateStart(lines[l], pos)
    requires Close(lines, l, pos).1 >= 0
    ensures var p := Close(lines, l, pos);
            && EndsAfter(lines, l, pos + 1, p)
            && lines[p.0][p.1 - 1] == '>'
            && Balanced(Span(lines, l, pos + 1, p.0, p.1 - 1))
  {
    OpenForward(lines[l], pos);
    AngleLines(lines, l, pos + 1, "<");
    assert Ground("<") == "(";
    var p := Close(lines, l, pos);
    PendingBalanced(Span(lines, l, pos + 1, p.0, p.1 - 1));
  }

  // ----- right to left

  /** The brackets on the stack of a scan that expects closing brackets to be matched,
      as the mirror image shows them, without the guesses `>`. */
  function Seen(st: string): (r: string)
    ensures st != [] && st[0] != '>' ==> r != []
  {
    if st == [] then ""
    else if Last(st) == '>' then Seen(Pop(st))
    else Seen(Pop(st)) + [Partner(Last(st))]
  }

  ghost predicate RootedBack(st: string) {
    st != [] && Closer(st[0])
  }

  lemma {:induction false} SeenStrip(st: string)
    ensures Seen(StripTop(st, '>')) == Seen(st)
  {
    if st != [] && Last(st) == '>' {
      SeenStrip(Pop(st));
    }
  }

  lemma SeenPush(st: string, c: char)
    ensures Seen(st + [c]) == if c == '>' then Seen(st) else Seen(st) + [Partner(c)]
  {
    assert Pop(st + [c]) == st;
  }

  lemma FeedMirroredOpener(st: string, c: char)
    requires RootedBack(st) && Opener(c)
    ensures var kept := StripTop(st, '>');
            && kept != []
            && (|kept| > 1 ==> RootedBack(Pop(kept)))
            && Feed(Seen(st), Partner(c)) ==
               (if Last(kept) == Partner(c) then Some(Seen(Pop(kept))) else None)
  {
    StripTopMeaning(st, '>');
    SeenStrip(st);
    var kept := StripTop(st, '>');
    assert Seen(st) == Seen(Pop(kept)) + [Partner(Last(kept))];
    assert Partner(Partner(Last(kept))) == Last(kept);
  }

  ghost predicate StartStepMeans(step: BackStep, line: string, i: nat, st: string)
    requires i < |line|
  {
    var fed := Feed(Seen(st), Partner(line[i]));
    match step
    case Back(st', next) =>
      && RootedBack(st')
      && fed == Some(Seen(st'))
      && (next == i - 1 || (next == i - 2 && i > 0 && !Bracket(line[i - 1])))
    case Halt(Found(p)) => p == i && fed == Some("")
    case Halt(Unclosed) => fed == None
    case Halt(More(_)) => false
  }

  /** One step of the backward scan is one step of the recogniser on the mirrored line;
      the character it may skip besides is never a bracket. */
  lemma StartStepMeaning(line: string, i: nat, st: string)
    requires i < |line| && RootedBack(st)
    ensures StartStepMeans(StartStep(line, i, st), line, i, st)
  {
    var c := line[i];
    if c == '>' {
      BackGreater(line, i, st);
    } else if c == '<' {
      BackLess(line, i, st);
    } else if Closer(c) {
      SeenPush(st, c);
    } else if Opener(c) {
      FeedMirroredOpener(st, c);
    } else if c == ';' {
      StripTopMeaning(st, '>');
      SeenStrip(st);
    }
  }

  lemma BackGreater(line: string, i: nat, st: string)
    requires i < |line| && RootedBack(st) && line[i] == '>'
    ensures StartStepMeans(StartStep(line, i, st), line, i, st)
  {
    if i > 0 && (line[i - 1] == '-' || SpacedGe(line, i) || EndsWithOperator(line[..i])) {
      assert !Bracket(line[i - 1]) by {
        if EndsWithOperator(line[..i]) {
          OperatorLast(line[..i]);
        }
      }
      assert StartStep(line, i, st) == Back(st, i - 2);
    } else {
      SeenPush(st, '>');
      assert StartStep(line, i, st) == Back(st + ['>'], i - 1);
    }
  }

  lemma BackLess(line: string, i: nat, st: string)
    requires i < |line| && RootedBack(st) && line[i] == '<'
    ensures StartStepMeans(StartStep(line, i, st), line, i, st)
  {
    if Last(st) == '>' {
      assert Seen(Pop(st)) == Seen(st);
    }
  }

  /** Before an operator symbol stands a blank or the last letter of `operator`. */
  lemma OperatorLast(s: string)
    requires EndsWithOperator(s)
    ensures s != [] && !Bracket(s[|s| - 1])
  {
    RStripMeaning(s);
    var t := RStrip(s);
    assert t[|t| - 8..][7] == "operator"[7] == 'r';
    if |t| < |s| {
      assert IsSpace(s[|s| - 1]);
    }
  }

  lemma MirrorLast(s: string)
    requires s != []
    ensures Mirror(s) == [Partner(s[|s| - 1])] + Mirror(s[..|s| - 1])
  {
  }

  /** Reading the mirror image of a line from its last character on. */
  lemma MirrorStep(line: string, i: nat, st: string)
    requires i < |line| && st != []
    ensures FirstClose(st, Mirror(line[..i + 1])) ==
            match Feed(st, Partner(line[i]))
            case None => Broken
            case Some(st') => if st' == [] then Closed(1) else Shift(1, FirstClose(st', Mirror(line[..i])))
  {
    var m := Mirror(line[..i + 1]);
    assert line[..i + 1][..i] == line[..i];
    assert m[0] == Partner(line[i]) && m[1..] == Mirror(line[..i]);
  }

  ghost predicate BackLineMeans(line: string, i: int, st: string, r: ScanResult)
    requires -1 <= i < |line| && RootedBack(st)
  {
    var means := FirstClose(Seen(st), Mirror(line[..i + 1]));
    match r
    case Found(p) => p <= i && means == Closed(i + 1 - p)
    case Unclosed => means == Broken
    case More(st') => RootedBack(st') && means == Pending(Seen(st'))
  }

  lemma StepThenBackLine(line: string, i: nat, st: string, step: BackStep, r: ScanResult)
    requires i < |line| && RootedBack(st) && StartStepMeans(step, line, i, st)
    requires if step.Back? then BackLineMeans(line, step.next, step.stack, r) else step.result == r
    ensures BackLineMeans(line, i, st, r)
  {
    MirrorStep(line, i, Seen(st));
    if step.Back? && step.next == i - 2 {
      MirrorStep(line, i - 1, Seen(step.stack));
    }
  }

  lemma {:induction false} FindStartMeaning(line: string, i: int, st: string)
    requires -1 <= i < |line| && RootedBack(st)
    ensures BackLineMeans(line, i, st, FindStart(line, i, st))
    decreases i
  {
    if i >= 0 {
      StartStepMeaning(line, i, st);
      var step := StartStep(line, i, st);
      if step.Back? {
        FindStartMeaning(line, step.next, step.stack);
      }
      StepThenBackLine(line, i, st, step, FindStart(line, i, st));
    }
  }

  /** All text up to and including position `i` of line `l`. */
  function Head(lines: seq<string>, l: nat, i: int): string
    requires l < |lines| && -1 <= i < |lines[l]|
    decreases l
  {
    (if l > 0 then Head(lines, l - 1, |lines[l - 1]| - 1) else "") + lines[l][..i + 1]
  }

  ghost predicate StartsBefore(lines: seq<string>, l: nat, i: int, p: (nat, int)) {
    && p.0 <= l < |lines|
    && 0 <= p.1 < |lines[p.0]|
    && (p.0 == l ==> p.1 <= i)
  }

  /** A span can be taken apart at its last line too. */
  lemma SpanStep(lines: seq<string>, l: nat, i: nat, m: nat, e: nat)
    requires l < m < |lines| && i <= |lines[l]| && e <= |lines[m]|
    ensures Span(lines, l, i, m, e) == lines[l][i..] + Span(lines, l + 1, 0, m, e)
  {
  }

  lemma SpanOneLine(lines: seq<string>, l: nat, i: nat, e: nat)
    requires l < |lines| && i <= e <= |lines[l]|
    ensures Span(lines, l, i, l, e) == lines[l][i..e]
  {
  }

  lemma {:induction false} SpanLastLine(lines: seq<string>, l: nat, i: nat, m: nat, e: nat)
    requires l < m < |lines| && i <= |lines[l]| && e <= |lines[m]|
    ensures Span(lines, l, i, m, e) == Span(lines, l, i, m - 1, |lines[m - 1]|) + lines[m][..e]
    decreases m - l
  {
    hide Span;
    SpanStep(lines, l, i, m, e);
    if l + 1 < m {
      SpanStep(lines, l, i, m - 1, |lines[m - 1]|);
      SpanLastLine(lines, l + 1, 0, m, e);
      var mid := Span(lines, l + 1, 0, m - 1, |lines[m - 1]|);
      assert lines[l][i..] + (mid + lines[m][..e]) == lines[l][i..] + mid + lines[m][..e];
    } else {
      SpanOneLine(lines, m, 0, e);
      SpanOneLine(lines, l, i, |lines[l]|);
      assert lines[m][0..e] == lines[m][..e] && lines[l][i..|lines[l]|] == lines[l][i..];
    }
  }

  lemma EndsConcat(a: string, b: string, c: string)
    requires EndsWith(a, b)
    ensures EndsWith(a + c, b + c)
  {
    assert (a + c)[|a| - |b|..] == a[|a| - |b|..] + c;
  }

  lemma EndsSlice(a: string, s: string, k: nat)
    requires k <= |s|
    ensures EndsWith(a + s, s[k..])
  {
  }

  lemma {:induction false} SpanOfHead(lines: seq<string>, l: nat, i: int, p: (nat, int))
    requires l < |lines| && -1 <= i < |lines[l]| && StartsBefore(lines, l, i, p)
    ensures EndsWith(Head(lines, l, i), Span(lines, p.0, p.1, l, i + 1))
    decreases l
  {
    hide Span, EndsWith;
    if p.0 < l {
      SpanLastLine(lines, p.0, p.1, l, i + 1);
      SpanOfHead(lines, l - 1, |lines[l - 1]| - 1, p);
      EndsConcat(Head(lines, l - 1, |lines[l - 1]| - 1), Span(lines, p.0, p.1, l - 1, |lines[l - 1]|), lines[l][..i + 1]);
    } else {
      SpanOneLine(lines, l, p.1, i + 1);
      assert lines[l][..i + 1][p.1..] == lines[l][p.1..i + 1];
      EndsSlice(if l > 0 then Head(lines, l - 1, |lines[l - 1]| - 1) else "", lines[l][..i + 1], p.1);
    }
  }

  /** `p` is where the recogniser stops when it reads back from `(l, i)`. */
  ghost predicate BackMeans(lines: seq<string>, l: nat, i: int, st: string, p: (nat, int))
    requires l < |lines| && -1 <= i < |lines[l]| && st != []
  {
    var r := FirstClose(st, Mirror(Head(lines, l, i)));
    if r.Closed? then StartsBefore(lines, l, i, p) && r.end == |Span(lines, p.0, p.1, l, i + 1)|
    else p == (0, -1)
  }

  lemma {:induction false} ResumeReverseMeaning(lines: seq<string>, l: nat, i: int, st: string)
    requires l < |lines| && -1 <= i < |lines[l]| && RootedBack(st)
    ensures BackMeans(lines, l, i, Seen(st), ResumeReverse(lines, l, FindStart(lines[l], i, st)))
    decreases l
  {
    var r := FindStart(lines[l], i, st);
    FindStartMeaning(lines[l], i, st);
    if r.More? && l > 0 {
      ResumeReverseMeaning(lines, l - 1, |lines[l - 1]| - 1, r.stack);
    }
    LineThenEarlier(lines, l, i, st, r, ResumeReverse(lines, l, r));
  }

  /** All text before line `l`. */
  function Before(lines: seq<string>, l: nat): string
    requires l < |lines|
  {
    if l > 0 then Head(lines, l - 1, |lines[l - 1]| - 1) else ""
  }

  lemma BackOneLine(lines: seq<string>, l: nat, i: int, st: string)
    requires l < |lines| && -1 <= i < |lines[l]| && st != []
    ensures FirstClose(st, Mirror(Head(lines, l, i))) ==
            var r := FirstClose(st, Mirror(lines[l][..i + 1]));
            if r.Pending? then Shift(i + 1, FirstClose(r.stack, Mirror(Before(lines, l)))) else r
  {
    MirrorConcat(Before(lines, l), lines[l][..i + 1]);
    ReturnConcat(st, 0, Mirror(lines[l][..i + 1]), Mirror(Before(lines, l)));
  }

  lemma LineThenEarlier(lines: seq<string>, l: nat, i: int, st: string, r: ScanResult, p: (nat, int))
    requires l < |lines| && -1 <= i < |lines[l]| && RootedBack(st) && BackLineMeans(lines[l], i, st, r)
    requires match r
             case Found(k) => p == (l, k as int)
             case Unclosed => p == (0, -1)
             case More(st') =>
               if l == 0 then p == (0, -1) else BackMeans(lines, l - 1, |lines[l - 1]| - 1, Seen(st'), p)
    ensures BackMeans(lines, l, i, Seen(st), p)
  {
    BackOneLine(lines, l, i, Seen(st));
    if r.More? && p != (0, -1) {
      SpanLastLine(lines, p.0, p.1, l, i + 1);
    }
  }

  lemma {:induction false} SpanStartInjective(lines: seq<string>, l: nat, i: int, p: (nat, int), q: (nat, int))
    requires l < |lines| && -1 <= i < |lines[l]|
    requires StartsBefore(lines, l, i, p) && StartsBefore(lines, l, i, q)
    requires |Span(lines, p.0, p.1, l, i + 1)| == |Span(lines, q.0, q.1, l, i + 1)|
    ensures p == q
    decreases l
  {
    if p.0 < l {
      SpanLastLine(lines, p.0, p.1, l, i + 1);
    }
    if q.0 < l {
      SpanLastLine(lines, q.0, q.1, l, i + 1);
    }
    if p.0 < l && q.0 < l {
      SpanStartInjective(lines, l - 1, |lines[l - 1]| - 1, p, q);
    } else if p.0 < l {
      SpanLineNonempty(lines, p, l - 1);
    } else if q.0 < l {
      SpanLineNonempty(lines, q, l - 1);
    }
  }

  lemma {:induction false} SpanLineNonempty(lines: seq<string>, p: (nat, int), l: nat)
    requires l < |lines| && StartsBefore(lines, l, |lines[l]| - 1, p)
    ensures |Span(lines, p.0, p.1, l, |lines[l]|)| >= 1
  {
  }

  /** ReverseCloseExpression from a closing bracket: it answers with a position exactly
      when the text from that position to the bracket is a group of the grammar. */
  lemma ReverseIffGroup(lines: seq<string>, l: nat, pos: nat, p: (nat, int))
    requires l < |lines| && pos < |lines[l]| && Closer(lines[l][pos])
    requires StartsBefore(lines, l, pos, p)
    ensures ReverseClose(lines, l, pos) == p <==> IsGroup(Span(lines, p.0, p.1, l, pos + 1))
  {
    ReverseMeaning(lines, l, pos);
    if p.0 == l && p.1 == pos {
      assert Span(lines, p.0, p.1, l, pos + 1) == [lines[l][pos]];
    } else {
      BackGroup(lines, l, pos, p);
      if IsGroup(Span(lines, p.0, p.1, l, pos + 1)) {
        SpanStartInjective(lines, l, pos - 1, ReverseClose(lines, l, pos), p);
      }
    }
  }

  /** The backward scan is the recogniser on the mirror image of the preceding text. */
  lemma ReverseMeaning(lines: seq<string>, l: nat, pos: nat)
    requires l < |lines| && pos < |lines[l]| && Closer(lines[l][pos])
    ensures BackMeans(lines, l, pos - 1, [Partner(lines[l][pos])], ReverseClose(lines, l, pos))
  {
    var c := lines[l][pos];
    assert "" + [c] == [c];
    assert Seen([c]) == [Partner(c)];
    ResumeReverseMeaning(lines, l, pos - 1, [c]);
  }

  lemma BackGroup(lines: seq<string>, l: nat, pos: nat, p: (nat, int))
    requires l < |lines| && pos < |lines[l]| && Closer(lines[l][pos])
    requires StartsBefore(lines, l, pos - 1, p)
    ensures IsGroup(Span(lines, p.0, p.1, l, pos + 1)) <==>
            FirstClose([Partner(lines[l][pos])], Mirror(Head(lines, l, pos - 1))) == Closed(|Span(lines, p.0, p.1, l, pos)|)
  {
    var c := lines[l][pos];
    var s := Span(lines, p.0, p.1, l, pos);
    var g := Span(lines, p.0, p.1, l, pos + 1);
    SpanLastChar(lines, p, l, pos);
    assert g == s + [c] && g[..|g| - 1] == s;
    MirrorGroup(g);
    MirrorLast(g);
    SpanOfHead(lines, l, pos - 1, p);
    MirrorSuffix(Head(lines, l, pos - 1), s);
    GroupIffClosed(Partner(c), Mirror(Head(lines, l, pos - 1)), |s|);
  }

  lemma MirrorSuffix(head: string, s: string)
    requires EndsWith(head, s)
    ensures Mirror(head)[..|s|] == Mirror(s)
  {
  }

  lemma SpanLastChar(lines: seq<string>, p: (nat, int), l: nat, pos: nat)
    requires l < |lines| && pos < |lines[l]| && StartsBefore(lines, l, pos - 1, p)
    ensures Span(lines, p.0, p.1, l, pos + 1) == Span(lines, p.0, p.1, l, pos) + [lines[l][pos]]
  {
    if p.0 < l {
      SpanLastLine(lines, p.0, p.1, l, pos + 1);
      SpanLastLine(lines, p.0, p.1, l, pos);
    }
  }

  // ----- the matchers agree

  /** Going forward and coming back: the two scanners undo each other on round, square
      and curly brackets. */
  lemma CloseThenReverse(lines: seq<string>, l: nat, pos: nat)
    requires l < |lines| && pos < |lines[l]| && Opener(lines[l][pos])
    requires Close(lines, l, pos) != (|lines|, -1)
    ensures var p := Close(lines, l, pos);
            && EndsAfter(lines, l, pos, p)
            && Closer(lines[p.0][p.1 - 1])
            && ReverseClose(lines, p.0, p.1 - 1) == (l, pos as int)
  {
    ClosePast(lines, l, pos);
    var p := Close(lines, l, pos);
    CloseIffGroup(lines, l, pos, p);
    GroupEnds(lines, (l, pos), p.0, p.1 - 1);
    ReverseIffGroup(lines, p.0, p.1 - 1, (l, pos));
  }

  lemma ReverseThenClose(lines: seq<string>, l: nat, pos: nat)
    requires l < |lines| && pos < |lines[l]| && Closer(lines[l][pos])
    requires ReverseClose(lines, l, pos) != (0, -1)
    ensures var p := ReverseClose(lines, l, pos);
            && StartsBefore(lines, l, pos, p)
            && Opener(lines[p.0][p.1])
            && Close(lines, p.0, p.1) == (l, pos + 1)
  {
    ReverseMeaning(lines, l, pos);
    var p := ReverseClose(lines, l, pos);
    ReverseIffGroup(lines, l, pos, p);
    GroupEnds(lines, p, l, pos);
    CloseIffGroup(lines, p.0, p.1, (l, pos + 1));
  }

  /** The end characters of a span. */
  lemma GroupEnds(lines: seq<string>, p: (nat, int), l: nat, pos: nat)
    requires l < |lines| && pos < |lines[l]| && StartsBefore(lines, l, pos, p)
    ensures var g := Span(lines, p.0, p.1, l, pos + 1);
            g != [] && g[0] == lines[p.0][p.1] && g[|g| - 1] == lines[l][pos]
  {
    if p.0 < l {
      SpanLastLine(lines, p.0, p.1, l, pos + 1);
    }
  }

  /** The independently written matcher that returns the enclosed text follows the same
      recogniser, its stack holding the expected closing brackets. */
  lemma {:induction false} InsideScanMeaning(text: string, position: nat, st: string)
    requires position <= |text| && RootedBack(st) && forall k | 0 <= k < |st| :: Closer(st[k])
    ensures InsideMeans(text, position, Seen(st), InsideScan(text, position, st))
    decreases |text| - position
  {
    hide FirstClose;
    if position == |text| {
      NothingCloses(Seen(st));
      assert text[position..] == "";
    } else {
      var c := text[position];
      LineStep(text, position, Seen(st));
      if c == Last(st) {
        assert Partner(Partner(c)) == c;
        if |st| > 1 {
          InsideScanMeaning(text, position + 1, Pop(st));
        } else {
          assert InsideScan(text, position + 1, Pop(st)) == Some(position + 1);
        }
      } else if Opener(c) {
        SeenPush(st, Partner(c));
        assert Partner(Partner(c)) == c;
        InsideScanMeaning(text, position + 1, st + [Partner(c)]);
      } else if !Closer(c) {
        InsideScanMeaning(text, position + 1, st);
      }
    }
  }

  lemma NothingCloses(st: string)
    requires st != []
    ensures !FirstClose(st, "").Closed?
  {
  }

  ghost predicate InsideMeans(text: string, position: nat, st: string, r: Option<nat>)
    requires position <= |text| && st != []
  {
    var means := FirstClose(st, text[position..]);
    if r.Some? then position <= r.value && means == Closed(r.value - position) else !means.Closed?
  }

  lemma InsideFromOpener(text: string, start: nat)
    requires 0 < start <= |text| && Opener(text[start - 1])
    ensures var means := FirstClose([text[start - 1]], text[start..]);
            Inside(text, Some(start)) ==
            if means.Closed? then Text(text[start..start + means.end - 1]) else Nothing
  {
    var o := text[start - 1];
    assert Partner(Partner(o)) == o;
    assert Seen([Partner(o)]) == [o];
    InsideScanMeaning(text, start, [Partner(o)]);
  }

  /** The two matchers agree: the enclosed text is returned exactly when the forward scan
      reports a close, and it is the text strictly inside. */
  lemma InsideAgreesWithFindEnd(text: string, start: nat)
    requires 0 < start <= |text| && Opener(text[start - 1])
    ensures var r := FindEnd(text, start - 1, "");
            Inside(text, Some(start)) == if r.Found? then Text(text[start..r.pos - 1]) else Nothing
  {
    hide FirstClose, FindEnd, Inside;
    InsideFromOpener(text, start);
    OpenForward(text, start - 1);
    FindEndMeaning(text, start, [text[start - 1]]);
    assert Erase([text[start - 1]], '<') == [text[start - 1]];
  }

  /** The assertion on the pattern fails exactly when its match does not end with an opening
      bracket; without a match there is no text. */
  lemma InsideAsserts(text: string, matchEnd: Option<nat>)
    requires matchEnd.Some? ==> matchEnd.value <= |text|
    ensures Inside(text, matchEnd) == AssertionError <==>
            matchEnd.Some? && (matchEnd.value == 0 || text[matchEnd.value - 1] !in "({[")
    ensures matchEnd.None? ==> Inside(text, matchEnd) == Nothing
  {
    hide InsideScan;
  }

  /** The enclosed text is balanced, and balanced text followed by its closing bracket is
      what is returned. */
  lemma InsideIffBalanced(text: string, start: nat, inner: string)
    requires 0 < start <= |text| && Opener(text[start - 1])
    ensures Inside(text, Some(start)) == Text(inner) <==>
            Balanced(inner) && StartsWith(text[start..], inner + [Partner(text[start - 1])])
  {
    InsideFromOpener(text, start);
    var o, rest := text[start - 1], text[start..];
    var r := FirstClose([o], rest);
    if r.Closed? {
      CloseSplits(o, rest, r.end, text[start..start + r.end - 1]);
    }
    if Balanced(inner) && StartsWith(rest, inner + [Partner(o)]) {
      CloseSplits(o, rest, |inner| + 1, inner);
    }
  }

  lemma CloseSplits(o: char, rest: string, n: nat, inner: string)
    requires Opener(o) && 1 <= n <= |rest| && inner == rest[..n - 1]
    ensures FirstClose([o], rest) == Closed(n) <==> Balanced(inner) && StartsWith(rest, inner + [Partner(o)])
  {
    GroupIffClosed(o, rest, n);
    var g := [o] + rest[..n];
    assert g[1..|g| - 1] == inner;
    assert rest[..n] == inner + [rest[n - 1]];
  }
}
