/** The bracket scanners of the linter.  They read one line at a time, left to right or
    right to left, and thread a stack from line to line.  The stack mixes round, square
    and curly brackets with guesses about `<` and `>`. */
module BracketScan {
  import opened Chars
  import opened Dyck

  /** Answer of a one-line scan: the position of the match, "no match is possible", or
      the stack to carry over to the next line. */
  datatype ScanResult = Found(pos: nat) | Unclosed | More(stack: string)

  function Last(st: string): char
    requires st != []
  {
    st[|st| - 1]
  }

  function Pop(st: string): string
    requires st != []
  {
    st[..|st| - 1]
  }

  /** `Search(r'\boperator\s*$', s)` */
  predicate EndsWithOperator(s: string) {
    var t := RStrip(s);
    EndsWith(t, "operator") && (|t| == 8 || !IsWord(t[|t| - 9]))
  }

  /** Drops the pending angle brackets `a` from the top of the stack. */
  function StripTop(st: string, a: char): string {
    if st != [] && Last(st) == a then StripTop(Pop(st), a) else st
  }

  // ----- left to right

  datatype Step = Go(stack: string) | Stop(result: ScanResult)

  /** What the forward scan does with the character at `i`. */
  function EndStep(line: string, i: nat, st: string): Step
    requires i < |line|
  {
    var c := line[i];
    if Opener(c) then Go(st + [c])
    else if c == '<' then
      if i > 0 && line[i - 1] == '<' then PopGuess(st, '<', Unclosed)
      else if i > 0 && EndsWithOperator(line[..i]) then Go(st)
      else Go(st + ['<'])
    else if Closer(c) then
      var kept := StripTop(st, '<');
      if kept == [] || Last(kept) != Partner(c) then Stop(Unclosed)
      else if |kept| == 1 then Stop(Found(i + 1))
      else Go(Pop(kept))
    else if c == '>' then
      if i > 0 && (line[i - 1] == '-' || EndsWithOperator(line[..i - 1])) then Go(st)
      else PopGuess(st, '<', Found(i + 1))
    else if c == ';' then
      var kept := StripTop(st, '<');
      if kept == [] then Stop(Unclosed) else Go(kept)
    else Go(st)
  }

  /** Takes back the guess `a` if it is on top; `atEmpty` answers when nothing is left. */
  function PopGuess(st: string, a: char, atEmpty: ScanResult): Step {
    if st == [] || Last(st) != a then Go(st)
    else if |st| == 1 then Stop(atEmpty)
    else Go(Pop(st))
  }

  function FindEnd(line: string, i: nat, st: string): (r: ScanResult)
    ensures r.Found? ==> i < r.pos <= |line|
    decreases |line| - i
  {
    if i >= |line| then More(st)
    else
      match EndStep(line, i, st)
      case Go(st') => FindEnd(line, i + 1, st')
      case Stop(r) => r
  }

  method FindEndOfExpressionInLine(line: string, startpos: nat, stack0: string) returns (r: ScanResult)
    ensures r == FindEnd(line, startpos, stack0)
  {
    var stack := stack0;
    var i := startpos;
    while i < |line|
      invariant FindEnd(line, startpos, stack0) == FindEnd(line, i, stack)
    {
      var c := line[i];
      if c == '(' || c == '[' || c == '{' {
        stack := stack + [c];
      } else if c == '<' {
        if i > 0 && line[i - 1] == '<' {
          if stack != [] && Last(stack) == '<' {
            stack := Pop(stack);
            if stack == [] {
              return Unclosed;
            }
          }
        } else if i > 0 && EndsWithOperator(line[..i]) {
          i := i + 1;
          continue;
        } else {
          stack := stack + ['<'];
        }
      } else if c == ')' || c == ']' || c == '}' {
        stack := PopWhile(stack, '<');
        if stack == [] {
          return Unclosed;
        }
        if (Last(stack) == '(' && c == ')') || (Last(stack) == '[' && c == ']') || (Last(stack) == '{' && c == '}') {
          stack := Pop(stack);
          if stack == [] {
            return Found(i + 1);
          }
        } else {
          return Unclosed;
        }
      } else if c == '>' {
        if i > 0 && (line[i - 1] == '-' || EndsWithOperator(line[..i - 1])) {
          i := i + 1;
          continue;
        }
        if stack != [] {
          if Last(stack) == '<' {
            stack := Pop(stack);
            if stack == [] {
              return Found(i + 1);
            }
          }
        }
      } else if c == ';' {
        stack := PopWhile(stack, '<');
        if stack == [] {
          return Unclosed;
        }
      }
      i := i + 1;
    }
    return More(stack);
  }

  method PopWhile(stack0: string, a: char) returns (stack: string)
    ensures stack == StripTop(stack0, a)
  {
    stack := stack0;
    while stack != [] && Last(stack) == a
      invariant StripTop(stack, a) == StripTop(stack0, a)
    {
      stack := Pop(stack);
    }
  }

  // ----- right to left

  datatype BackStep = Back(stack: string, next: int) | Halt(result: ScanResult)

  /** `Match(r'\s>=\s', line[i - 1:])` */
  predicate SpacedGe(line: string, i: nat)
    requires 0 < i < |line|
  {
    IsSpace(line[i - 1]) && line[i] == '>' && i + 2 < |line| && line[i + 1] == '=' && IsSpace(line[i + 2])
  }

  /** What the backward scan does with the character at `i`, and where it looks next. */
  function StartStep(line: string, i: nat, st: string): (r: BackStep)
    requires i < |line|
    ensures r.Back? ==> -1 <= r.next < i
  {
    var c := line[i];
    if Closer(c) then Back(st + [c], i - 1)
    else if c == '>' then
      if i > 0 && (line[i - 1] == '-' || SpacedGe(line, i) || EndsWithOperator(line[..i])) then Back(st, i - 2)
      else Back(st + ['>'], i - 1)
    else if c == '<' then
      if i > 0 && line[i - 1] == '<' then Back(st, i - 2)
      else if st == [] || Last(st) != '>' then Back(st, i - 1)
      else if |st| == 1 then Halt(Found(i))
      else Back(Pop(st), i - 1)
    else if Opener(c) then
      var kept := StripTop(st, '>');
      if kept == [] || Last(kept) != Partner(c) then Halt(Unclosed)
      else if |kept| == 1 then Halt(Found(i))
      else Back(Pop(kept), i - 1)
    else if c == ';' then
      var kept := StripTop(st, '>');
      if kept == [] then Halt(Unclosed) else Back(kept, i - 1)
    else Back(st, i - 1)
  }

  function FindStart(line: string, i: int, st: string): (r: ScanResult)
    requires i < |line|
    ensures r.Found? ==> r.pos <= i
    decreases i
  {
    if i < 0 then More(st)
    else
      match StartStep(line, i, st)
      case Back(st', next) => FindStart(line, next, st')
      case Halt(r) => r
  }

  method FindStartOfExpressionInLine(line: string, endpos: int, stack0: string) returns (r: ScanResult)
    requires endpos < |line|
    ensures r == FindStart(line, endpos, stack0)
  {
    var stack := stack0;
    var i := endpos;
    while i >= 0
      invariant i < |line|
      invariant FindStart(line, endpos, stack0) == FindStart(line, i, stack)
    {
      var c := line[i];
      if c == ')' || c == ']' || c == '}' {
        stack := stack + [c];
      } else if c == '>' {
        if i > 0 && (line[i - 1] == '-' || SpacedGe(line, i) || EndsWithOperator(line[..i])) {
          i := i - 1;
        } else {
          stack := stack + ['>'];
        }
      } else if c == '<' {
        if i > 0 && line[i - 1] == '<' {
          i := i - 1;
        } else {
          if stack != [] && Last(stack) == '>' {
            stack := Pop(stack);
            if stack == [] {
              return Found(i);
            }
          }
        }
      } else if c == '(' || c == '[' || c == '{' {
        stack := PopWhile(stack, '>');
        if stack == [] {
          return Unclosed;
        }
        if (c == '(' && Last(stack) == ')') || (c == '[' && Last(stack) == ']') || (c == '{' && Last(stack) == '}') {
          stack := Pop(stack);
          if stack == [] {
            return Found(i);
          }
        } else {
          return Unclosed;
        }
      } else if c == ';' {
        stack := PopWhile(stack, '>');
        if stack == [] {
          return Unclosed;
        }
      }
      i := i - 1;
    }
    return More(stack);
  }

  // ----- across lines

  /** Continues a forward scan whose answer on line `l` was `r`: the position just past
      the match, or the number of lines and -1. */
  function ResumeClose(lines: seq<string>, l: nat, r: ScanResult): (nat, int)
    requires l < |lines|
    decreases |lines| - l
  {
    match r
    case Found(e) => (l, e)
    case Unclosed => (|lines|, -1)
    case More(st) =>
      if st == [] || l + 1 == |lines| then (|lines|, -1)
      else ResumeClose(lines, l + 1, FindEnd(lines[l + 1], 0, st))
  }

  /** `Match(r'<[<=]', line[pos:])` */
  predicate ShiftOrLessEqual(line: string, pos: nat)
    requires pos < |line|
  {
    line[pos] == '<' && pos + 1 < |line| && (line[pos + 1] == '<' || line[pos + 1] == '=')
  }

  function Close(lines: seq<string>, l: nat, pos: nat): (nat, int)
    requires l < |lines| && pos < |lines[l]|
  {
    var line := lines[l];
    if !(Opener(line[pos]) || line[pos] == '<') || ShiftOrLessEqual(line, pos) then (|lines|, -1)
    else ResumeClose(lines, l, FindEnd(line, pos, ""))
  }

  method CloseExpression(lines: seq<string>, linenum0: nat, pos: nat) returns (line: string, linenum: nat, end: int)
    requires linenum0 < |lines| && pos < |lines[linenum0]|
    ensures (linenum, end) == Close(lines, linenum0, pos)
    ensures end >= 0 ==> linenum < |lines| && line == lines[linenum] && end <= |line|
    ensures end >= 0 ==> linenum0 < linenum || (linenum0 == linenum && pos < end)
  {
    ClosePast(lines, linenum0, pos);
    linenum := linenum0;
    line := lines[linenum];
    if (line[pos] != '(' && line[pos] != '{' && line[pos] != '[' && line[pos] != '<') || ShiftOrLessEqual(line, pos) {
      return line, |lines|, -1;
    }
    var r := FindEndOfExpressionInLine(line, pos, "");
    if r.Found? {
      return line, linenum, r.pos;
    }
    while r.More? && r.stack != [] && linenum < |lines| - 1
      invariant linenum < |lines|
      invariant Close(lines, linenum0, pos) == ResumeClose(lines, linenum, r)
      invariant !r.Found?
      decreases |lines| - linenum
    {
      linenum := linenum + 1;
      line := lines[linenum];
      r := FindEndOfExpressionInLine(line, 0, r.stack);
      if r.Found? {
        return line, linenum, r.pos;
      }
    }
    return line, |lines|, -1;
  }

  /** A successful close lies strictly after its start, whatever the kind of bracket. */
  lemma ClosePast(lines: seq<string>, l: nat, pos: nat)
    requires l < |lines| && pos < |lines[l]|
    ensures Close(lines, l, pos) == (|lines|, -1) || EndsAfter(lines, l, pos, Close(lines, l, pos))
  {
    if Opener(lines[l][pos]) || lines[l][pos] == '<' {
      ResumePast(lines, l, FindEnd(lines[l], pos, ""));
    }
  }

  ghost predicate EndsAfter(lines: seq<string>, l: nat, pos: nat, p: (nat, int)) {
    && l <= p.0 < |lines|
    && 1 <= p.1 <= |lines[p.0]|
    && (l == p.0 ==> pos < p.1)
  }

  lemma {:induction false} ResumePast(lines: seq<string>, l: nat, r: ScanResult)
    requires l < |lines|
    ensures var p := ResumeClose(lines, l, r);
            p == (|lines|, -1) || (r.Found? && p == (l, r.pos as int)) || EndsAfter(lines, l + 1, 0, p)
    decreases |lines| - l
  {
    if r.More? && r.stack != [] && l + 1 < |lines| {
      ResumePast(lines, l + 1, FindEnd(lines[l + 1], 0, r.stack));
    }
  }

  /** Continues a backward scan whose answer on line `l` was `r`: the position of the
      opening bracket, or line 0 and -1. */
  function ResumeReverse(lines: seq<string>, l: nat, r: ScanResult): (nat, int)
    requires l < |lines|
    decreases l
  {
    match r
    case Found(p) => (l, p)
    case Unclosed => (0, -1)
    case More(st) =>
      if st == [] || l == 0 then (0, -1)
      else ResumeReverse(lines, l - 1, FindStart(lines[l - 1], |lines[l - 1]| - 1, st))
  }

  function ReverseClose(lines: seq<string>, l: nat, pos: nat): (nat, int)
    requires l < |lines| && pos < |lines[l]|
  {
    var line := lines[l];
    if !(Closer(line[pos]) || line[pos] == '>') then (0, -1)
    else ResumeReverse(lines, l, FindStart(line, pos, ""))
  }

  method ReverseCloseExpression(lines: seq<string>, linenum0: nat, pos: nat)
    returns (line: string, linenum: nat, start: int)
    requires linenum0 < |lines| && pos < |lines[linenum0]|
    ensures (linenum, start) == ReverseClose(lines, linenum0, pos)
    ensures start >= 0 ==> linenum < |lines| && line == lines[linenum] && start < |line|
  {
    linenum := linenum0;
    line := lines[linenum];
    if line[pos] != ')' && line[pos] != '}' && line[pos] != ']' && line[pos] != '>' {
      return line, 0, -1;
    }
    var r := FindStartOfExpressionInLine(line, pos, "");
    if r.Found? {
      return line, linenum, r.pos;
    }
    while r.More? && r.stack != [] && linenum > 0
      invariant linenum < |lines|
      invariant ReverseClose(lines, linenum0, pos) == ResumeReverse(lines, linenum, r)
      invariant !r.Found?
      decreases linenum
    {
      linenum := linenum - 1;
      line := lines[linenum];
      r := FindStartOfExpressionInLine(line, |line| - 1, r.stack);
      if r.Found? {
        return line, linenum, r.pos;
      }
    }
    return line, 0, -1;
  }

  // ----- the third matcher

  datatype TextInside = Text(text: string) | Nothing | AssertionError

  /** Reads from `position` with a stack of expected closing brackets, innermost last. */
  function InsideScan(text: string, position: nat, st: string): (r: Option<nat>)
    requires position <= |text|
    ensures r.Some? ==> position <= r.value <= |text| && (st != [] ==> position < r.value)
    decreases |text| - position
  {
    if st == [] then Some(position)
    else if position == |text| then None
    else if text[position] == Last(st) then InsideScan(text, position + 1, Pop(st))
    else if Closer(text[position]) then None
    else if Opener(text[position]) then InsideScan(text, position + 1, st + [Partner(text[position])])
    else InsideScan(text, position + 1, st)
  }

  /** `matchEnd` is where the match of the start pattern ends, if it matches. */
  function Inside(text: string, matchEnd: Option<nat>): TextInside
    requires matchEnd.Some? ==> matchEnd.value <= |text|
  {
    if matchEnd.None? then Nothing
    else if matchEnd.value == 0 || !Opener(text[matchEnd.value - 1]) then AssertionError
    else
      match InsideScan(text, matchEnd.value, [Partner(text[matchEnd.value - 1])])
      case None => Nothing
      case Some(p) => Text(text[matchEnd.value..p - 1])
  }

  method GetTextInside(text: string, matchEnd: Option<nat>) returns (r: TextInside)
    requires matchEnd.Some? ==> matchEnd.value <= |text|
    ensures r == Inside(text, matchEnd)
  {
    if matchEnd.None? {
      return Nothing;
    }
    var start := matchEnd.value;
    if start == 0 || !Opener(text[start - 1]) {
      return AssertionError;
    }
    var stack := [Partner(text[start - 1])];
    var position := start;
    while stack != [] && position < |text|
      invariant start <= position <= |text|
      invariant stack == [] ==> position > start
      invariant InsideScan(text, start, [Partner(text[start - 1])]) == InsideScan(text, position, stack)
      decreases |text| - position
    {
      if text[position] == Last(stack) {
        stack := Pop(stack);
      } else if Closer(text[position]) {
        return Nothing;
      } else if Opener(text[position]) {
        stack := stack + [Partner(text[position])];
      }
      position := position + 1;
    }
    if stack != [] {
      return Nothing;
    }
    return Text(text[start..position - 1]);
  }
}
