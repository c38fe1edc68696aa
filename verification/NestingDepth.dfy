/** What the nesting stack means: over plain lines, blocks open and close with the braces of
    the text, and a block that is not closed stays where it is. */
module NestingDepth {
  import opened Chars
  import opened TemplateArgs
  import opened Nesting
  import opened BranchErasure

  // ----- braces in a text

  /** Opening braces less closing braces. */
  function Net(s: string): int {
    Count(s, '{') - Count(s, '}')
  }

  /** Read from the left, the text never closes more than `d` braces that it has not opened. */
  ghost predicate Room(s: string, d: nat) {
    forall k | 0 <= k <= |s| :: d + Net(s[..k]) >= 0
  }

  lemma {:induction false} CountConcat(a: string, b: string, c: char)
    ensures Count(a + b, c) == Count(a, c) + Count(b, c)
  {
    if a == [] {
      assert a + b == b;
    } else {
      assert (a + b)[1..] == a[1..] + b;
      CountConcat(a[1..], b, c);
    }
  }

  lemma NetConcat(a: string, b: string)
    ensures Net(a + b) == Net(a) + Net(b)
  {
    CountConcat(a, b, '{');
    CountConcat(a, b, '}');
  }

  lemma RoomSplit(a: string, b: string, d: nat)
    requires Room(a + b, d)
    ensures Room(a, d) && d + Net(a) >= 0 && Room(b, d + Net(a))
  {
    hide Net;
    forall k | 0 <= k <= |a|
      ensures d + Net(a[..k]) >= 0
    {
      assert (a + b)[..k] == a[..k];
    }
    assert a[..|a|] == a;
    forall k | 0 <= k <= |b|
      ensures d + Net(a) + Net(b[..k]) >= 0
    {
      assert (a + b)[..|a| + k] == a + b[..k];
      NetConcat(a, b[..k]);
    }
  }

  lemma {:induction false} NoBraces(s: string)
    requires forall k | 0 <= k < |s| :: s[k] != '{' && s[k] != '}'
    ensures Net(s) == 0
  {
    if s != [] {
      NoBraces(s[1..]);
    }
  }

  // ----- one line

  predicate Opened(s: Stack) {
    forall k | 0 <= k < |s| :: s[k].seenOpenBrace
  }

  /** The lowest blocks of `r` are `outer`; above them are `n` blocks, all opened. */
  ghost predicate Above(r: Stack, outer: Stack, n: int) {
    |r| == |outer| + n && outer <= r && Opened(r[|outer|..])
  }

  lemma TokenSplit(line: string)
    requires '\n' !in line && BraceToken(line).Some?
    ensures var (token, rest) := BraceToken(line).value;
            && token in "{;)}" && '\n' !in rest
            && exists head :: line == head + ([token] + rest) && Net(head) == 0
  {
    var n := Span(line, NotToken);
    var (token, rest) := BraceToken(line).value;
    var head := line[..n];
    NoBraces(head);
    assert line == head + ([token] + rest);
  }

  lemma NoToken(line: string)
    requires '\n' !in line && BraceToken(line).None?
    ensures Net(line) == 0
  {
    assert line[..|line|] == line;
    NoBraces(line);
  }

  lemma NetOfToken(token: char)
    ensures Net([token]) == if token == '{' then 1 else if token == '}' then -1 else 0
  {
    assert [token][1..] == [];
    assert Count([token], '{') == (if token == '{' then 1 else 0) + Count([], '{');
    assert Count([token], '}') == (if token == '}' then 1 else 0) + Count([], '}');
  }

  lemma AboveOpen(s: Stack, outer: Stack, n: nat)
    requires SeenOpenBrace(outer) && Above(s, outer, n)
    ensures SeenOpenBrace(s)
  {
    if n > 0 {
      assert Top(s) == s[|outer|..][n - 1];
    } else {
      assert s == outer;
    }
  }

  lemma AbovePush(s: Stack, outer: Stack, n: nat, b: Block)
    requires Above(s, outer, n) && b.seenOpenBrace
    ensures Above(s + [b], outer, n + 1)
  {
    assert (s + [b])[|outer|..] == s[|outer|..] + [b];
  }

  lemma AbovePop(s: Stack, outer: Stack, n: nat)
    requires Above(s, outer, n) && n > 0
    ensures Above(s[..|s| - 1], outer, n - 1)
  {
    assert s[..|s| - 1][|outer|..] == s[|outer|..][..n - 1];
  }

  lemma TokenDepth(f: File, token: char, line: string, s: Stack, outer: Stack, n: nat)
    requires SeenOpenBrace(outer) && Above(s, outer, n) && token in "{;)}" && n + Net([token]) >= 0
    ensures Above(ConsumeToken(f, token, line, s), outer, n + Net([token]))
  {
    hide ExternBrace, Above, Net;
    NetOfToken(token);
    AboveOpen(s, outer, n);
    if token == '{' {
      AbovePush(s, outer, n, NewBlock(ExternC));
      AbovePush(s, outer, n, NewBlock(Brace).(asm := if f.patterns.asm(line) then BlockAsm else NoAsm));
    } else if token == '}' {
      AboveSize(s, outer, n);
      AbovePop(s, outer, n);
    }
  }

  lemma AboveSize(s: Stack, outer: Stack, n: nat)
    requires Above(s, outer, n)
    ensures |s| == |outer| + n
  {
  }

  /** The braces of a line, above blocks that it does not close. */
  lemma {:induction false} LineDepth(f: File, line: string, s: Stack, outer: Stack, n: nat)
    requires '\n' !in line && SeenOpenBrace(outer) && Above(s, outer, n) && Room(line, n)
    ensures Above(ConsumeBraces(f, line, s), outer, n + Net(line))
    decreases |line|
  {
    hide BraceToken, ConsumeToken, Net, Above, Room;
    if BraceToken(line).None? {
      NoToken(line);
    } else {
      TokenSplit(line);
      var (token, rest) := BraceToken(line).value;
      var head :| line == head + ([token] + rest) && Net(head) == 0;
      NetConcat(head, [token] + rest);
      NetConcat([token], rest);
      RoomSplit(head, [token] + rest, n);
      RoomSplit([token], rest, n);
      TokenDepth(f, token, line, s, outer, n);
      LineDepth(f, rest, ConsumeToken(f, token, line, s), outer, n + Net([token]));
    }
  }

  // ----- plain lines

  /** A line without a directive, a declaration or an access specifier. */
  predicate Plain(f: File, l: nat)
    requires l < |f.elided|
  {
    var line := f.elided[l];
    && DirectiveOf(line) == Other && NamespaceDecl(line) == None && '\n' !in line
    && f.patterns.classDecl(line) == None && f.patterns.access(line) == None
  }

  predicate PlainLines(f: File, ls: seq<nat>) {
    LineNumbers(f, ls) && forall k | 0 <= k < |ls| :: Plain(f, ls[k])
  }

  /** A block without the parts that follow its parentheses. */
  function Core(b: Block): Block {
    b.(openParentheses := 0, asm := NoAsm)
  }

  ghost predicate SameCores(s: Stack, t: Stack) {
    |s| == |t| && forall k | 0 <= k < |s| :: Core(s[k]) == Core(t[k])
  }

  /** The lowest blocks of `r` are those of `outer`, parentheses aside; above them are `n`
      blocks, all opened. */
  ghost predicate Over(r: Stack, outer: Stack, n: int) {
    |r| == |outer| + n >= |outer| && SameCores(r[..|outer|], outer) && Opened(r[|outer|..])
  }

  lemma OverAbove(r: Stack, outer: Stack, n: nat)
    requires Over(r, outer, n) && SeenOpenBrace(outer)
    ensures Above(r, r[..|outer|], n) && SeenOpenBrace(r[..|outer|])
  {
    if outer != [] {
      assert Core(r[..|outer|][|outer| - 1]) == Core(Top(outer));
    }
  }

  lemma AboveOver(r: Stack, mid: Stack, outer: Stack, n: nat)
    requires Above(r, mid, n) && SameCores(mid, outer)
    ensures Over(r, outer, n)
  {
    assert r[..|outer|] == mid;
  }

  lemma CountOver(f: File, line: string, s: Stack, outer: Stack, n: nat)
    requires Over(s, outer, n)
    ensures Over(CountParentheses(f, line, s), outer, n)
  {
    var t := CountParentheses(f, line, s);
    assert |t| == |s| && forall k | 0 <= k < |s| :: Core(t[k]) == Core(s[k]);
    forall k | 0 <= k < n
      ensures t[|outer|..][k].seenOpenBrace
    {
      assert Core(t[|outer| + k]) == Core(s[|outer| + k]);
      assert s[|outer|..][k].seenOpenBrace;
    }
  }

  lemma OverOpen(s: Stack, outer: Stack, n: nat)
    requires Over(s, outer, n) && SeenOpenBrace(outer)
    ensures SeenOpenBrace(s)
  {
    if n == 0 {
      OverAbove(s, outer, n);
      assert s[..|outer|] == s;
    } else {
      assert Top(s) == s[|outer|..][n - 1];
    }
  }

  lemma PlainUpdate(f: File, l: nat, st: State)
    requires l < |f.elided| && l < |f.raw| && Plain(f, l)
    ensures var line := f.elided[l];
            Update(f, l, st) == st.(stack := ConsumeBraces(f, line, CheckBegin(line, CountParentheses(f, line, st.stack))))
  {
    hide DirectiveOf, NamespaceDecl, ConsumeBraces, CheckBegin, CountParentheses;
  }

  lemma PlainLine(f: File, l: nat, st: State, outer: Stack, n: nat)
    requires l < |f.elided| && l < |f.raw| && Plain(f, l)
    requires SeenOpenBrace(outer) && Over(st.stack, outer, n) && Room(f.elided[l], n)
    ensures var st' := Update(f, l, st);
            st'.pp == st.pp && Over(st'.stack, outer, n + Net(f.elided[l]))
  {
    var line := f.elided[l];
    var s := CountParentheses(f, line, st.stack);
    CountOver(f, line, st.stack, outer, n);
    OverOpen(s, outer, n);
    assert CheckBegin(line, s) == s;
    PlainUpdate(f, l, st);
    OverAbove(s, outer, n);
    LineDepth(f, line, s, s[..|outer|], n);
    hide Net;
    assert line[..|line|] == line;
    AboveOver(ConsumeBraces(f, line, s), s[..|outer|], outer, n + Net(line));
  }

  /** The text of some lines. */
  function Text(f: File, ls: seq<nat>): string
    requires LineNumbers(f, ls)
  {
    if ls == [] then "" else f.elided[ls[0]] + Text(f, ls[1..])
  }

  /** Whatever the stack is and however it is divided: plain lines that close none of the
      lower blocks leave these in place, and add or remove above them one opened block for
      each brace opened or closed. */
  lemma {:induction false} DepthFollowsBraces(f: File, ls: seq<nat>, st: State, outer: Stack, n: nat)
    requires PlainLines(f, ls) && SeenOpenBrace(outer) && Over(st.stack, outer, n) && Room(Text(f, ls), n)
    ensures var st' := Run(f, ls, st);
            st'.pp == st.pp && Over(st'.stack, outer, n + Net(Text(f, ls)))
    decreases |ls|
  {
    hide Plain, Room, Over, Net, Update;
    if ls == [] {
      assert Net("") == 0 by { NoBraces(""); }
    } else {
      var line := f.elided[ls[0]];
      RoomSplit(line, Text(f, ls[1..]), n);
      NetConcat(line, Text(f, ls[1..]));
      PlainLine(f, ls[0], st, outer, n);
      DepthFollowsBraces(f, ls[1..], Update(f, ls[0], st), outer, n + Net(line));
    }
  }

  lemma OverNone(r: Stack, outer: Stack)
    ensures Over(r, outer, 0) <==> SameCores(r, outer)
  {
    assert |r| == |outer| ==> r[..|outer|] == r;
  }

  /** Lines whose braces match leave all blocks as they were. */
  lemma MatchedBraces(f: File, ls: seq<nat>, st: State)
    requires PlainLines(f, ls) && SeenOpenBrace(st.stack) && Room(Text(f, ls), 0) && Net(Text(f, ls)) == 0
    ensures var st' := Run(f, ls, st);
            st'.pp == st.pp && SameCores(st'.stack, st.stack)
  {
    assert SameCores(st.stack, st.stack);
    hide Plain, Room, Net, Update, Run, Over, SameCores;
    OverNone(st.stack, st.stack);
    DepthFollowsBraces(f, ls, st, st.stack, 0);
    OverNone(Run(f, ls, st).stack, st.stack);
  }

  // ----- a block that has been declared and not opened

  /** On top of the blocks `below` waits a declared block. */
  ghost predicate Waiting(s: Stack, below: Stack, kind: Kind) {
    |s| == |below| + 1 && SameCores(s[..|below|], below) && !Top(s).seenOpenBrace && Top(s).kind == kind
  }

  /** The blocks `below` are in place, with the declared block on them if `n` is 1, and then
      `m` opened blocks. */
  ghost predicate Holds(r: Stack, below: Stack, kind: Kind, n: nat, m: int) {
    && |r| == |below| + n + m >= |below| + n
    && SameCores(r[..|below|], below)
    && (n == 1 ==> r[|below|].kind == kind && r[|below|].seenOpenBrace)
    && Opened(r[|below| + n..])
  }

  /** The lowest `n` blocks. */
  function Lower(s: Stack, n: nat): Stack {
    if n <= |s| then s[..n] else s
  }

  lemma HoldsOver(r: Stack, below: Stack, kind: Kind, n: nat, m: nat)
    requires n <= 1 && Holds(r, below, kind, n, m) && SeenOpenBrace(below)
    ensures SeenOpenBrace(Lower(r, |below| + n)) && Over(r, Lower(r, |below| + n), m)
  {
    var outer := r[..|below| + n];
    assert SameCores(r[..|outer|], outer);
    if n == 0 && below != [] {
      assert Core(r[..|below|][|below| - 1]) == Core(Top(below));
    }
  }

  lemma OverHolds(r: Stack, s: Stack, below: Stack, kind: Kind, n: nat, m: nat, m': int)
    requires n <= 1 && Holds(s, below, kind, n, m) && Over(r, Lower(s, |below| + n), m')
    ensures Holds(r, below, kind, n, m')
  {
    var outer := s[..|below| + n];
    forall k | 0 <= k < |below|
      ensures Core(r[..|below|][k]) == Core(below[k])
    {
      assert Core(r[..|outer|][k]) == Core(outer[k]);
      assert Core(s[..|below|][k]) == Core(below[k]);
    }
    if n == 1 {
      assert Core(r[..|outer|][|below|]) == Core(outer[|below|]);
    }
  }

  /** How many of the blocks above `below` are opened by the first token. */
  function Opens(token: char): nat {
    if token == '{' then 1 else 0
  }

  /** A brace opens the waiting block; a semicolon or a parenthesis drops it. */
  lemma WaitingToken(f: File, token: char, line: string, s: Stack, below: Stack, kind: Kind, n: nat)
    requires Waiting(s, below, kind) && token in "{;)" && n <= Opens(token)
    ensures Holds(ConsumeToken(f, token, line, s), below, kind, n, Opens(token) - n)
  {
    var r := ConsumeToken(f, token, line, s);
    assert r[..|below|] == s[..|below|];
  }

  lemma WaitingHead(f: File, line: string, s: Stack, below: Stack, kind: Kind)
    requires Waiting(s, below, kind)
    ensures Waiting(CheckBegin(line, CountParentheses(f, line, s)), below, kind)
  {
    hide BareColon, Count;
    var r := CheckBegin(line, CountParentheses(f, line, s));
    assert r[..|below|] == s[..|below|];
  }

  lemma BracesStep(f: File, line: string, s: Stack, p: nat)
    requires '\n' !in line && p == Span(line, NotToken) < |line|
    ensures line[p] in "{;)}"
    ensures ConsumeBraces(f, line, s) == ConsumeBraces(f, line[p + 1..], ConsumeToken(f, line[p], line, s))
  {
    assert BraceToken(line) == Some((line[p], line[p + 1..]));
    hide BraceToken, ConsumeToken;
  }

  /** The line that has the first token. */
  lemma TokenLine(f: File, l: nat, st: State, below: Stack, kind: Kind, n: nat, p: nat)
    requires l < |f.elided| && l < |f.raw| && Plain(f, l)
    requires SeenOpenBrace(below) && Waiting(st.stack, below, kind)
    requires var line := f.elided[l];
             && p == Span(line, NotToken) < |line| && line[p] != '}'
             && n <= Opens(line[p]) && Room(line[p + 1..], Opens(line[p]) - n)
    ensures var line := f.elided[l];
            var st' := Update(f, l, st);
            st'.pp == st.pp && Holds(st'.stack, below, kind, n, Opens(line[p]) - n + Net(line[p + 1..]))
  {
    var line := f.elided[l];
    var s := CheckBegin(line, CountParentheses(f, line, st.stack));
    PlainUpdate(f, l, st);
    WaitingHead(f, line, st.stack, below, kind);
    var token, rest := line[p], line[p + 1..];
    hide CheckBegin, Net, Waiting, Update, CountParentheses, BraceToken, ConsumeToken, ConsumeBraces, Span, All;
    BracesStep(f, line, s, p);
    WaitingToken(f, token, line, s, below, kind, n);
    AfterToken(f, rest, ConsumeToken(f, token, line, s), below, kind, n, Opens(token) - n);
  }

  /** The rest of that line. */
  lemma AfterToken(f: File, rest: string, s: Stack, below: Stack, kind: Kind, n: nat, m: nat)
    requires '\n' !in rest && SeenOpenBrace(below) && n <= 1 && Holds(s, below, kind, n, m) && Room(rest, m)
    ensures Holds(ConsumeBraces(f, rest, s), below, kind, n, m + Net(rest))
  {
    hide Net;
    var outer := Lower(s, |below| + n);
    HoldsOver(s, below, kind, n, m);
    OverAbove(s, outer, m);
    LineDepth(f, rest, s, outer, m);
    assert rest[..|rest|] == rest && m + Net(rest) >= 0;
    hide Over, Above, Holds, Room, ConsumeBraces;
    AboveOver(ConsumeBraces(f, rest, s), outer, outer, m + Net(rest));
    OverHolds(ConsumeBraces(f, rest, s), s, below, kind, n, m, m + Net(rest));
  }

  /** A line before the first token. */
  lemma WaitingLine(f: File, l: nat, st: State, below: Stack, kind: Kind)
    requires l < |f.elided| && l < |f.raw| && Plain(f, l) && Waiting(st.stack, below, kind)
    requires Span(f.elided[l], NotToken) == |f.elided[l]|
    ensures Update(f, l, st).pp == st.pp && Waiting(Update(f, l, st).stack, below, kind)
  {
    PlainUpdate(f, l, st);
    WaitingHead(f, f.elided[l], st.stack, below, kind);
    hide Plain, CheckBegin, Waiting, Update, CountParentheses;
    assert BraceToken(f.elided[l]) == None;
  }

  lemma {:induction false} SpanConcat(a: string, b: string)
    ensures Span(a + b, NotToken) == if Span(a, NotToken) == |a| then |a| + Span(b, NotToken) else Span(a, NotToken)
  {
    if a == [] {
      assert a + b == b;
    } else {
      assert (a + b)[1..] == a[1..] + b;
      SpanConcat(a[1..], b);
    }
  }

  /** The text after its first token, which must be there. */
  ghost predicate Splits(text: string, token: char, rest: string) {
    var p := Span(text, NotToken);
    p < |text| && token == text[p] && rest == text[p + 1..]
  }

  lemma SplitsConcat(a: string, b: string, token: char, rest: string)
    requires Splits(a + b, token, rest)
    ensures Span(a, NotToken) == |a| ==> Splits(b, token, rest)
    ensures Span(a, NotToken) < |a| ==> a[Span(a, NotToken)] == token && rest == a[Span(a, NotToken) + 1..] + b
  {
    hide Span, All, NotToken;
    SpanConcat(a, b);
    CutConcat(a, b, Span(a + b, NotToken), Span(a, NotToken), Span(b, NotToken));
  }

  lemma CutConcat(a: string, b: string, p: nat, n: nat, q: nat)
    requires n <= |a| && q <= |b| && p < |a| + |b| && p == if n == |a| then |a| + q else n
    ensures n == |a| ==> q < |b| && (a + b)[p] == b[q] && (a + b)[p + 1..] == b[q + 1..]
    ensures n < |a| ==> (a + b)[p] == a[n] && (a + b)[p + 1..] == a[n + 1..] + b
  {
  }

  lemma {:induction false} FirstToken(f: File, ls: seq<nat>, st: State, below: Stack, kind: Kind, n: nat, token: char, rest: string)
    requires PlainLines(f, ls) && SeenOpenBrace(below) && Waiting(st.stack, below, kind)
    requires Splits(Text(f, ls), token, rest) && token != '}' && n <= Opens(token) && Room(rest, Opens(token) - n)
    ensures var st' := Run(f, ls, st);
            st'.pp == st.pp && Holds(st'.stack, below, kind, n, Opens(token) - n + Net(rest))
    decreases |ls|
  {
    hide Plain, Room, Net, Update, Waiting, Holds, Splits, Over;
    assert ls != [] by { NotEmpty(token, rest); }
    var line, tail := f.elided[ls[0]], Text(f, ls[1..]);
    SplitsConcat(line, tail, token, rest);
    var p := Span(line, NotToken);
    if p == |line| {
      WaitingLine(f, ls[0], st, below, kind);
      FirstToken(f, ls[1..], Update(f, ls[0], st), below, kind, n, token, rest);
    } else {
      var m := Opens(token) - n;
      RoomSplit(line[p + 1..], tail, m);
      NetConcat(line[p + 1..], tail);
      TokenLine(f, ls[0], st, below, kind, n, p);
      LaterLines(f, ls[1..], Update(f, ls[0], st), below, kind, n, m + Net(line[p + 1..]));
    }
  }

  lemma NotEmpty(token: char, rest: string)
    ensures !Splits("", token, rest)
  {
  }

  lemma LaterLines(f: File, ls: seq<nat>, st: State, below: Stack, kind: Kind, n: nat, m: nat)
    requires PlainLines(f, ls) && SeenOpenBrace(below) && n <= 1 && Holds(st.stack, below, kind, n, m) && Room(Text(f, ls), m)
    ensures var st' := Run(f, ls, st);
            st'.pp == st.pp && Holds(st'.stack, below, kind, n, m + Net(Text(f, ls)))
  {
    hide Plain, Room, Net, Run, Over, Holds, Text, SeenOpenBrace, Lower, LineNumbers;
    var outer := Lower(st.stack, |below| + n);
    HoldsOver(st.stack, below, kind, n, m);
    DepthFollowsBraces(f, ls, st, outer, m);
    OverHolds(Run(f, ls, st).stack, st.stack, below, kind, n, m, m + Net(Text(f, ls)));
  }

  // ----- from the declaration on

  /** What is done after the declarations of a line keeps a waiting block waiting, up to the
      first token. */
  lemma WaitingRest(f: File, head: string, line: string, s: Stack, below: Stack, kind: Kind)
    requires Waiting(s, below, kind)
    ensures Waiting(UpdateAccess(f, line, CheckBegin(head, s)), below, kind)
  {
    hide BareColon;
    var r := UpdateAccess(f, line, CheckBegin(head, s));
    assert r[..|below|] == s[..|below|];
  }

  lemma UpdateIs(f: File, l: nat, st: State)
    requires l < |f.elided| && l < |f.raw| && DirectiveOf(f.elided[l]) == Other
    ensures var (line, s) := Declare(f, l, st.stack);
            Update(f, l, st) == st.(stack := ConsumeBraces(f, line, UpdateAccess(f, line, CheckBegin(f.elided[l], s))))
  {
    hide DirectiveOf, Declare, ConsumeBraces, UpdateAccess, CheckBegin;
  }

  /** A block of the given kind is declared on line `l`, above the blocks `below`.  In the text
      after its head, on that line and on the lines `ls`, the first token is `token`, and `rest`
      follows it.  A namespace may have been opened with its declaration. */
  ghost predicate Begun(f: File, l: nat, ls: seq<nat>, st: State, below: Stack, kind: Kind, token: char, rest: string)
    requires l < |f.elided| && l < |f.raw| && LineNumbers(f, ls)
  {
    var (line, s) := Declare(f, l, st.stack);
    && DirectiveOf(f.elided[l]) == Other && '\n' !in line
    && (|| (Waiting(s, below, kind) && Splits(line + Text(f, ls), token, rest))
        || (Holds(s, below, kind, 1, 0) && kind.Namespace? && token == '{' && rest == line + Text(f, ls)))
  }

  lemma BegunWaiting(f: File, l: nat, ls: seq<nat>, st: State, below: Stack, kind: Kind, n: nat, token: char, rest: string)
    requires l < |f.elided| && l < |f.raw| && PlainLines(f, ls) && SeenOpenBrace(below) && DirectiveOf(f.elided[l]) == Other
    requires var (line, s) := Declare(f, l, st.stack);
             '\n' !in line && Waiting(s, below, kind) && Splits(line + Text(f, ls), token, rest)
    requires token != '}' && n <= Opens(token) && Room(rest, Opens(token) - n)
    ensures var st' := Run(f, ls, Update(f, l, st));
            st'.pp == st.pp && Holds(st'.stack, below, kind, n, Opens(token) - n + Net(rest))
  {
    hide Declare, Update, Run, Plain, Room, Net, Waiting, Holds, Splits, ConsumeBraces, UpdateAccess, CheckBegin, ConsumeToken;
    var (line, s0) := Declare(f, l, st.stack);
    UpdateIs(f, l, st);
    WaitingRest(f, f.elided[l], line, s0, below, kind);
    var s := UpdateAccess(f, line, CheckBegin(f.elided[l], s0));
    var tail := Text(f, ls);
    SplitsConcat(line, tail, token, rest);
    var p := Span(line, NotToken);
    if p == |line| {
      NoTokenLine(f, line, s);
      FirstToken(f, ls, Update(f, l, st), below, kind, n, token, rest);
    } else {
      var m := Opens(token) - n;
      RoomSplit(line[p + 1..], tail, m);
      NetConcat(line[p + 1..], tail);
      BracesStep(f, line, s, p);
      WaitingToken(f, token, line, s, below, kind, n);
      AfterToken(f, line[p + 1..], ConsumeToken(f, token, line, s), below, kind, n, m);
      LaterLines(f, ls, Update(f, l, st), below, kind, n, m + Net(line[p + 1..]));
    }
  }

  lemma NoTokenLine(f: File, line: string, s: Stack)
    requires Span(line, NotToken) == |line|
    ensures ConsumeBraces(f, line, s) == s
  {
    assert BraceToken(line) == None;
  }

  lemma BegunOpen(f: File, l: nat, ls: seq<nat>, st: State, below: Stack, kind: Kind, n: nat, rest: string)
    requires l < |f.elided| && l < |f.raw| && PlainLines(f, ls) && SeenOpenBrace(below) && DirectiveOf(f.elided[l]) == Other
    requires var (line, s) := Declare(f, l, st.stack);
             '\n' !in line && Holds(s, below, kind, 1, 0) && kind.Namespace? && rest == line + Text(f, ls)
    requires n <= 1 && Room(rest, 1 - n)
    ensures var st' := Run(f, ls, Update(f, l, st));
            st'.pp == st.pp && Holds(st'.stack, below, kind, n, 1 - n + Net(rest))
  {
    hide Declare, Update, Run, Plain, Room, Net, Holds, ConsumeBraces, UpdateAccess, CheckBegin, DirectiveOf, SeenOpenBrace;
    var (line, s) := Declare(f, l, st.stack);
    OpenStays(f, f.elided[l], line, s, below, kind);
    OpenIsAbove(s, below, kind, n);
    UpdateIs(f, l, st);
    RoomSplit(line, Text(f, ls), 1 - n);
    NetConcat(line, Text(f, ls));
    AfterToken(f, line, s, below, kind, n, 1 - n);
    LaterLines(f, ls, Update(f, l, st), below, kind, n, 1 - n + Net(line));
  }

  lemma OpenStays(f: File, head: string, line: string, s: Stack, below: Stack, kind: Kind)
    requires Holds(s, below, kind, 1, 0) && kind.Namespace?
    ensures UpdateAccess(f, line, CheckBegin(head, s)) == s
  {
    assert Top(s) == s[|below|];
  }

  lemma OpenIsAbove(s: Stack, below: Stack, kind: Kind, n: nat)
    requires Holds(s, below, kind, 1, 0) && n <= 1
    ensures Holds(s, below, kind, n, 1 - n)
  {
  }

  lemma BegunRun(f: File, l: nat, ls: seq<nat>, st: State, below: Stack, kind: Kind, n: nat, token: char, rest: string)
    requires l < |f.elided| && l < |f.raw| && PlainLines(f, ls) && SeenOpenBrace(below)
    requires Begun(f, l, ls, st, below, kind, token, rest)
    requires token != '}' && n <= Opens(token) && Room(rest, Opens(token) - n)
    ensures var st' := Run(f, ls, Update(f, l, st));
            st'.pp == st.pp && Holds(st'.stack, below, kind, n, Opens(token) - n + Net(rest))
  {
    hide Declare, Update, Run, Plain, Room, Net, Waiting, Holds, Splits;
    var (line, s) := Declare(f, l, st.stack);
    if Waiting(s, below, kind) && Splits(line + Text(f, ls), token, rest) {
      BegunWaiting(f, l, ls, st, below, kind, n, token, rest);
    } else {
      BegunOpen(f, l, ls, st, below, kind, n, rest);
    }
  }

  // ----- lines that declare a block

  lemma CountSameCores(f: File, line: string, s: Stack)
    ensures SameCores(CountParentheses(f, line, s), s)
  {
    hide Count;
  }

  lemma PushWaits(f: File, line: string, s: Stack, b: Block)
    requires !b.seenOpenBrace
    ensures Waiting(CountParentheses(f, line, s) + [b], s, b.kind)
  {
    hide CountParentheses;
    CountSameCores(f, line, s);
    var t := CountParentheses(f, line, s) + [b];
    assert t[..|s|] == CountParentheses(f, line, s);
  }

  lemma PushHolds(f: File, line: string, s: Stack, b: Block)
    requires b.seenOpenBrace
    ensures Holds(CountParentheses(f, line, s) + [b], s, b.kind, 1, 0)
  {
    hide CountParentheses;
    CountSameCores(f, line, s);
    var t := CountParentheses(f, line, s) + [b];
    assert t[..|s|] == CountParentheses(f, line, s);
  }

  /** A class head outside of parentheses and of template arguments declares a class; its first
      token is looked for on the same line and on the lines after it. */
  lemma ClassBegins(f: File, l: nat, ls: seq<nat>, st: State, token: char, rest: string)
    requires l < |f.elided| && l < |f.raw| && LineNumbers(f, ls)
    requires DirectiveOf(f.elided[l]) == Other && NamespaceDecl(f.elided[l]) == None
    requires var d := f.patterns.classDecl(f.elided[l]);
             var s := CountParentheses(f, f.elided[l], st.stack);
             && d.Some? && '\n' !in d.value.rest && (s == [] || Top(s).openParentheses == 0)
             && !InTemplate(f.elided, l, d.value.headLength)
             && Splits(d.value.rest + Text(f, ls), token, rest)
    ensures var d := f.patterns.classDecl(f.elided[l]).value;
            var kind := Class(d.name, d.isStruct, l, IndentLevel(f.raw[l]), LastLine(f.elided, l, 0));
            Begun(f, l, ls, st, st.stack, kind, token, rest)
  {
    hide InTemplate, LastLine, IndentLevel, DirectiveOf, NamespaceDecl, CountParentheses, Text, Splits, Waiting, Holds;
    var d := f.patterns.classDecl(f.elided[l]).value;
    var kind := Class(d.name, d.isStruct, l, IndentLevel(f.raw[l]), LastLine(f.elided, l, 0));
    var s := CountParentheses(f, f.elided[l], st.stack);
    assert Declare(f, l, st.stack) == (d.rest, s + [NewBlock(kind)]);
    PushWaits(f, f.elided[l], st.stack, NewBlock(kind));
  }

  /** A namespace declaration with nothing declared after it on the line: opened if its brace
      is on the line, and waiting for it otherwise. */
  lemma NamespaceBegins(f: File, l: nat, ls: seq<nat>, st: State, token: char, rest: string)
    requires l < |f.elided| && l < |f.raw| && LineNumbers(f, ls)
    requires DirectiveOf(f.elided[l]) == Other && NamespaceDecl(f.elided[l]).Some?
    requires var after := NamespaceDecl(f.elided[l]).value.1;
             var brace := Find(after, "{", 0);
             var line := if brace != -1 then after[brace + 1..] else after;
             && '\n' !in line && NamespaceDecl(line) == None && f.patterns.classDecl(line) == None
             && if brace != -1 then token == '{' && rest == line + Text(f, ls) else Splits(line + Text(f, ls), token, rest)
    ensures Begun(f, l, ls, st, st.stack, Namespace(NamespaceDecl(f.elided[l]).value.0, l), token, rest)
  {
    hide DirectiveOf, NamespaceDecl, CountParentheses, Text, Splits, Waiting, Holds, Find, Declare;
    var (name, after) := NamespaceDecl(f.elided[l]).value;
    var brace := Find(after, "{", 0);
    var b := NewBlock(Namespace(name, l)).(seenOpenBrace := brace != -1);
    NamespaceDeclares(f, l, st.stack);
    if brace != -1 {
      PushHolds(f, f.elided[l], st.stack, b);
    } else {
      PushWaits(f, f.elided[l], st.stack, b);
    }
  }

  lemma NamespaceDeclares(f: File, l: nat, s: Stack)
    requires l < |f.elided| && l < |f.raw| && NamespaceDecl(f.elided[l]).Some?
    requires var after := NamespaceDecl(f.elided[l]).value.1;
             var brace := Find(after, "{", 0);
             var line := if brace != -1 then after[brace + 1..] else after;
             NamespaceDecl(line) == None && f.patterns.classDecl(line) == None
    ensures var (name, after) := NamespaceDecl(f.elided[l]).value;
            var brace := Find(after, "{", 0);
            var b := NewBlock(Namespace(name, l)).(seenOpenBrace := brace != -1);
            Declare(f, l, s) ==
            (if brace != -1 then after[brace + 1..] else after, CountParentheses(f, f.elided[l], s) + [b])
  {
    hide NamespaceDecl, CountParentheses, Find;
    var (name, after) := NamespaceDecl(f.elided[l]).value;
    var brace := Find(after, "{", 0);
    var line := if brace != -1 then after[brace + 1..] else after;
    var b := NewBlock(Namespace(name, l)).(seenOpenBrace := brace != -1);
    var t := CountParentheses(f, f.elided[l], s);
    NamespaceStep(l, f.elided[l], t, name, after);
    NamespaceDone(l, line, t + [b]);
  }

  lemma NamespaceStep(l: nat, line: string, s: Stack, name: string, after: string)
    requires NamespaceDecl(line) == Some((name, after))
    ensures var brace := Find(after, "{", 0);
            var b := NewBlock(Namespace(name, l)).(seenOpenBrace := brace != -1);
            ConsumeNamespaces(l, line, s) == ConsumeNamespaces(l, if brace != -1 then after[brace + 1..] else after, s + [b])
  {
    hide NamespaceDecl;
  }

  lemma NamespaceDone(l: nat, line: string, s: Stack)
    requires NamespaceDecl(line) == None
    ensures ConsumeNamespaces(l, line, s) == (line, s)
  {
    hide NamespaceDecl;
  }

  /** A declared namespace or class is open from its brace until the brace that matches it,
      on the line of its declaration or later: as long as the text closes no more than it
      opens, the block is there, in its place. */
  lemma DeclaredBlockOpens(f: File, l: nat, ls: seq<nat>, st: State, below: Stack, kind: Kind, rest: string)
    requires l < |f.elided| && l < |f.raw| && PlainLines(f, ls) && SeenOpenBrace(below)
    requires Begun(f, l, ls, st, below, kind, '{', rest) && Room(rest, 0)
    ensures var r := Run(f, ls, Update(f, l, st)).stack;
            && |r| == |below| + 1 + Net(rest) > |below|
            && SameCores(r[..|below|], below)
            && r[|below|].kind == kind && r[|below|].seenOpenBrace
  {
    hide Plain, Room, Net, Run, Begun, Update;
    BegunRun(f, l, ls, st, below, kind, 1, '{', rest);
  }

  /** The matching brace closes it. */
  lemma DeclaredBlockCloses(f: File, l: nat, ls: seq<nat>, st: State, below: Stack, kind: Kind, rest: string)
    requires l < |f.elided| && l < |f.raw| && PlainLines(f, ls) && SeenOpenBrace(below)
    requires Begun(f, l, ls, st, below, kind, '{', rest) && Room(rest, 1) && Net(rest) == -1
    ensures SameCores(Run(f, ls, Update(f, l, st)).stack, below)
  {
    hide Plain, Room, Net, Run, Begun, Update;
    BegunRun(f, l, ls, st, below, kind, 0, '{', rest);
    var r := Run(f, ls, Update(f, l, st)).stack;
    assert r[..|below|] == r;
  }

  /** A declaration that ends in a semicolon, or a name in a parameter list, leaves no block. */
  lemma DeclarationDropped(f: File, l: nat, ls: seq<nat>, st: State, below: Stack, kind: Kind, token: char, rest: string)
    requires l < |f.elided| && l < |f.raw| && PlainLines(f, ls) && SeenOpenBrace(below)
    requires (token == ';' || token == ')') && Begun(f, l, ls, st, below, kind, token, rest) && Room(rest, 0) && Net(rest) == 0
    ensures SameCores(Run(f, ls, Update(f, l, st)).stack, below)
  {
    hide Plain, Room, Net, Run, Begun, Update;
    BegunRun(f, l, ls, st, below, kind, 0, token, rest);
    var r := Run(f, ls, Update(f, l, st)).stack;
    assert r[..|below|] == r;
  }
}
