/** Deleting the text of the `#else` regions from the file, rather than leaving their lines
    out of the run: every declaration then finds the same blocks up to line numbers, exactly
    if each look-ahead for template arguments comes to the same answer in the shorter file. */
module NestingText {
  import opened Chars
  import opened TemplateArgs
  import opened Nesting
  import opened BranchErasure

  // ----- blocks up to line numbers

  function KindShape(k: Kind): Kind {
    match k
    case Namespace(name, _) => Namespace(name, 0)
    case Class(name, isStruct, _, indent, _) => Class(name, isStruct, 0, indent, 0)
    case _ => k
  }

  function Shape(b: Block): Block {
    b.(kind := KindShape(b.kind))
  }

  ghost predicate Like(s: Stack, t: Stack) {
    |s| == |t| && forall k | 0 <= k < |s| :: Shape(s[k]) == Shape(t[k])
  }

  lemma LikeTop(s: Stack, t: Stack)
    requires Like(s, t) && s != []
    ensures t != [] && Shape(Top(s)) == Shape(Top(t))
    ensures Like(s[..|s| - 1], t[..|t| - 1])
  {
  }

  lemma LikePush(s: Stack, t: Stack, b: Block, c: Block)
    requires Like(s, t) && Shape(b) == Shape(c)
    ensures Like(s + [b], t + [c])
  {
  }

  lemma LikeSetTop(s: Stack, t: Stack, b: Block, c: Block)
    requires Like(s, t) && s != [] && Shape(b) == Shape(c)
    ensures t != [] && Like(SetTop(s, b), SetTop(t, c))
  {
  }

  // ----- the parts of Update respect the likeness

  lemma LikeParenthesize(f: File, g: File, line: string, b: Block, c: Block)
    requires Shape(b) == Shape(c) && f.patterns == g.patterns
    ensures Shape(Parenthesize(f, line, b)) == Shape(Parenthesize(g, line, c))
  {
    hide Count, KindShape;
  }

  lemma LikeCount(f: File, g: File, line: string, s: Stack, t: Stack)
    requires Like(s, t) && f.patterns == g.patterns
    ensures Like(CountParentheses(f, line, s), CountParentheses(g, line, t))
  {
    if s != [] {
      hide Parenthesize, Shape;
      LikeTop(s, t);
      LikeParenthesize(f, g, line, Top(s), Top(t));
      LikeSetTop(s, t, Parenthesize(f, line, Top(s)), Parenthesize(g, line, Top(t)));
    }
  }

  lemma {:induction false} LikeNamespaces(l: nat, m: nat, line: string, s: Stack, t: Stack)
    requires Like(s, t)
    ensures var (r, s') := ConsumeNamespaces(l, line, s);
            var (r', t') := ConsumeNamespaces(m, line, t);
            r == r' && Like(s', t')
    decreases |line|
  {
    hide NamespaceDecl;
    var d := NamespaceDecl(line);
    if d.Some? {
      var (name, rest) := d.value;
      var brace := Find(rest, "{", 0);
      var b := NewBlock(Namespace(name, l)).(seenOpenBrace := brace != -1);
      var c := NewBlock(Namespace(name, m)).(seenOpenBrace := brace != -1);
      LikePush(s, t, b, c);
      LikeNamespaces(l, m, if brace != -1 then rest[brace + 1..] else rest, s + [b], t + [c]);
    }
  }

  /** A class is looked for only where no parenthesis is open. */
  predicate NoneOpen(s: Stack) {
    s == [] || Top(s).openParentheses == 0
  }

  /** What is left of a line after its namespaces, and the stack there. */
  function AtClass(f: File, l: nat, s: Stack): (string, Stack)
    requires l < |f.elided|
  {
    ConsumeNamespaces(l, f.elided[l], CountParentheses(f, f.elided[l], s))
  }

  /** If line `l` of `f`, met with the stack `s`, has a class head from which the code looks
      ahead, then the answer is the same in line `m` of `g`. */
  ghost predicate SameLookAhead(f: File, l: nat, s: Stack, g: File, m: nat)
    requires l < |f.elided|
  {
    var (line, t) := AtClass(f, l, s);
    var d := f.patterns.classDecl(line);
    d.Some? && NoneOpen(t) ==> InTemplate(f.elided, l, d.value.headLength) == InTemplate(g.elided, m, d.value.headLength)
  }

  /** If the look-aheads differ, only one of the two files gets the class. */
  lemma LikeClass(f: File, l: nat, g: File, m: nat, line: string, s: Stack, t: Stack)
    requires l < |f.raw| && m < |g.raw| && f.raw[l] == g.raw[m] && f.patterns == g.patterns && Like(s, t)
    ensures var (r, s') := ConsumeClass(f, l, line, s);
            var (r', t') := ConsumeClass(g, m, line, t);
            var d := f.patterns.classDecl(line);
            var same := d.Some? && NoneOpen(s) ==> InTemplate(f.elided, l, d.value.headLength) == InTemplate(g.elided, m, d.value.headLength);
            (Like(s', t') <==> same) && (same ==> r == r')
  {
    hide InTemplate;
    if s != [] {
      LikeTop(s, t);
    }
  }

  lemma LikeCheckBegin(head: string, s: Stack, t: Stack)
    requires Like(s, t)
    ensures Like(CheckBegin(head, s), CheckBegin(head, t))
  {
    hide BareColon;
    if s != [] {
      LikeTop(s, t);
      LikeSetTop(s, t, Top(s).(isDerived := true), Top(t).(isDerived := true));
    }
  }

  lemma LikeAccess(f: File, g: File, line: string, s: Stack, t: Stack)
    requires Like(s, t) && f.patterns == g.patterns
    ensures Like(UpdateAccess(f, line, s), UpdateAccess(g, line, t))
  {
    if s != [] && f.patterns.access(line).Some? {
      LikeTop(s, t);
      var a := f.patterns.access(line).value;
      LikeSetTop(s, t, Top(s).(access := a), Top(t).(access := a));
    }
  }

  lemma LikeToken(f: File, g: File, token: char, line: string, s: Stack, t: Stack)
    requires Like(s, t) && f.patterns == g.patterns
    ensures Like(ConsumeToken(f, token, line, s), ConsumeToken(g, token, line, t))
  {
    hide ExternBrace;
    if s != [] {
      LikeTop(s, t);
      LikeSetTop(s, t, Top(s).(seenOpenBrace := true), Top(t).(seenOpenBrace := true));
    }
  }

  lemma {:induction false} LikeBraces(f: File, g: File, line: string, s: Stack, t: Stack)
    requires Like(s, t) && f.patterns == g.patterns
    ensures Like(ConsumeBraces(f, line, s), ConsumeBraces(g, line, t))
    decreases |line|
  {
    hide BraceToken, ConsumeToken;
    var m := BraceToken(line);
    if m.Some? {
      var (token, rest) := m.value;
      LikeToken(f, g, token, line, s, t);
      LikeBraces(f, g, rest, ConsumeToken(f, token, line, s), ConsumeToken(g, token, line, t));
    }
  }

  /** Line `m` of `g` is line `l` of `f`. */
  ghost predicate SameLine(f: File, l: nat, g: File, m: nat) {
    && l < |f.elided| && l < |f.raw| && m < |g.elided| && m < |g.raw|
    && f.elided[l] == g.elided[m] && f.raw[l] == g.raw[m]
    && f.patterns == g.patterns
  }

  /** The declarations of a line leave alike stacks alike exactly when the look-ahead agrees. */
  lemma LikeDeclare(f: File, l: nat, g: File, m: nat, s: Stack, t: Stack)
    requires SameLine(f, l, g, m) && Like(s, t)
    ensures var (r, s') := Declare(f, l, s);
            var (r', t') := Declare(g, m, t);
            && (Like(s', t') <==> SameLookAhead(f, l, s, g, m))
            && (SameLookAhead(f, l, s, g, m) ==> r == r')
  {
    hide CountParentheses, ConsumeNamespaces, ConsumeClass, InTemplate, Like, NoneOpen;
    var line := f.elided[l];
    LikeCount(f, g, line, s, t);
    var s1, t1 := CountParentheses(f, line, s), CountParentheses(g, line, t);
    LikeNamespaces(l, m, line, s1, t1);
    var s2, t2 := ConsumeNamespaces(l, line, s1), ConsumeNamespaces(m, line, t1);
    LikeClass(f, l, g, m, s2.0, s2.1, t2.1);
  }

  lemma LikeConsume(f: File, g: File, head: string, line: string, s: Stack, t: Stack)
    requires Like(s, t) && f.patterns == g.patterns
    ensures Like(Consume(f, head, line, s), Consume(g, head, line, t))
  {
    hide CheckBegin, UpdateAccess, ConsumeBraces, Like;
    LikeCheckBegin(head, s, t);
    var s1, t1 := CheckBegin(head, s), CheckBegin(head, t);
    LikeAccess(f, g, line, s1, t1);
    LikeBraces(f, g, line, UpdateAccess(f, line, s1), UpdateAccess(g, line, t1));
  }

  // ----- whole runs

  ghost predicate LikeSaved(a: Saved, b: Saved) {
    Like(a.beforeIf, b.beforeIf) && Like(a.beforeElse, b.beforeElse) && a.seenElse == b.seenElse
  }

  ghost predicate LikeState(a: State, b: State) {
    && Like(a.stack, b.stack)
    && |a.pp| == |b.pp|
    && forall k | 0 <= k < |a.pp| :: LikeSaved(a.pp[k], b.pp[k])
  }

  lemma LikePreprocessor(a: State, b: State, d: Directive)
    requires LikeState(a, b)
    ensures LikeState(UpdatePreprocessor(a, d), UpdatePreprocessor(b, d))
  {
    assert LikeSaved(Saved(a.stack, [], false), Saved(b.stack, [], false));
    hide Like;
  }

  /** The stack with which the declarations of a line are met. */
  function Met(f: File, l: nat, st: State): Stack
    requires l < |f.elided|
  {
    UpdatePreprocessor(st, DirectiveOf(f.elided[l])).stack
  }

  lemma LikeMet(f: File, l: nat, g: File, m: nat, a: State, b: State)
    requires SameLine(f, l, g, m) && LikeState(a, b)
    ensures Like(Met(f, l, a), Met(g, m, b))
  {
    hide UpdatePreprocessor, DirectiveOf, Like;
    LikePreprocessor(a, b, DirectiveOf(f.elided[l]));
  }

  lemma LikeUpdate(f: File, l: nat, g: File, m: nat, a: State, b: State)
    requires SameLine(f, l, g, m) && LikeState(a, b) && SameLookAhead(f, l, Met(f, l, a), g, m)
    ensures LikeState(Update(f, l, a), Update(g, m, b))
  {
    hide UpdatePreprocessor, DirectiveOf, Declare, Consume, Like, SameLookAhead;
    LikePreprocessor(a, b, DirectiveOf(f.elided[l]));
    var s, t := Met(f, l, a), Met(g, m, b);
    LikeDeclare(f, l, g, m, s, t);
    LikeConsume(f, g, f.elided[l], Declare(f, l, s).0, Declare(f, l, s).1, Declare(g, m, t).1);
  }

  ghost predicate SameLines(f: File, ls: seq<nat>, g: File, ms: seq<nat>) {
    && |ls| == |ms| && LineNumbers(f, ls) && LineNumbers(g, ms)
    && forall k | 0 <= k < |ls| :: SameLine(f, ls[k], g, ms[k])
  }

  /** The stack with which a run meets the declarations of its line `k`. */
  function MetAt(f: File, ls: seq<nat>, st: State, k: nat): Stack
    requires LineNumbers(f, ls) && k < |ls|
  {
    Met(f, ls[k], Run(f, ls[..k], st))
  }

  /** The stack after these declarations. */
  function DeclaredAt(f: File, ls: seq<nat>, st: State, k: nat): Stack
    requires LineNumbers(f, ls) && k < |ls|
  {
    Declare(f, ls[k], MetAt(f, ls, st, k)).1
  }

  ghost predicate SameLookAheadAt(f: File, ls: seq<nat>, st: State, g: File, ms: seq<nat>, k: nat)
    requires LineNumbers(f, ls) && k < |ls| == |ms|
  {
    SameLookAhead(f, ls[k], MetAt(f, ls, st, k), g, ms[k])
  }

  lemma {:induction false} LikeRun(f: File, ls: seq<nat>, g: File, ms: seq<nat>, a: State, b: State, n: nat)
    requires SameLines(f, ls, g, ms) && LikeState(a, b) && n <= |ls|
    requires forall k | 0 <= k < n :: SameLookAheadAt(f, ls, a, g, ms, k)
    ensures LikeState(Run(f, ls[..n], a), Run(g, ms[..n], b))
    decreases n
  {
    hide Update, LikeState, SameLookAhead, Run, Met;
    if n == 0 {
      RunNothing(f, a);
      RunNothing(g, b);
    } else {
      LikeRun(f, ls, g, ms, a, b, n - 1);
      assert ls[..n] == ls[..n - 1] + [ls[n - 1]] && ms[..n] == ms[..n - 1] + [ms[n - 1]];
      RunLast(f, ls[..n - 1], ls[n - 1], a);
      RunLast(g, ms[..n - 1], ms[n - 1], b);
      assert SameLookAheadAt(f, ls, a, g, ms, n - 1);
      LikeUpdate(f, ls[n - 1], g, ms[n - 1], Run(f, ls[..n - 1], a), Run(g, ms[..n - 1], b));
    }
  }

  lemma RunNothing(f: File, st: State)
    ensures Run(f, [], st) == st
  {
  }

  lemma LikeDeclaredAt(f: File, ls: seq<nat>, g: File, ms: seq<nat>, a: State, b: State, k: nat)
    requires SameLines(f, ls, g, ms) && LikeState(a, b) && k < |ls|
    requires forall j | 0 <= j < k :: SameLookAheadAt(f, ls, a, g, ms, j)
    ensures Like(DeclaredAt(f, ls, a, k), DeclaredAt(g, ms, b, k)) <==> SameLookAheadAt(f, ls, a, g, ms, k)
  {
    hide Update, LikeState, SameLookAhead, Run, Met, Declare, Like;
    LikeRun(f, ls, g, ms, a, b, k);
    var a', b' := Run(f, ls[..k], a), Run(g, ms[..k], b);
    LikeMet(f, ls[k], g, ms[k], a', b');
    LikeDeclare(f, ls[k], g, ms[k], Met(f, ls[k], a'), Met(g, ms[k], b'));
  }

  /** Two files with equal lines: the declarations leave alike stacks on all of them exactly
      when all look-aheads that the code makes agree. */
  lemma DeclaredAlikeIff(f: File, ls: seq<nat>, g: File, ms: seq<nat>, a: State, b: State)
    requires SameLines(f, ls, g, ms) && LikeState(a, b)
    ensures (forall k | 0 <= k < |ls| :: Like(DeclaredAt(f, ls, a, k), DeclaredAt(g, ms, b, k))) <==>
            (forall k | 0 <= k < |ls| :: SameLookAheadAt(f, ls, a, g, ms, k))
  {
    hide SameLookAheadAt, DeclaredAt, Like, LikeState;
    if forall k | 0 <= k < |ls| :: Like(DeclaredAt(f, ls, a, k), DeclaredAt(g, ms, b, k)) {
      AgreeUpTo(f, ls, g, ms, a, b, |ls|);
    }
    if forall k | 0 <= k < |ls| :: SameLookAheadAt(f, ls, a, g, ms, k) {
      forall k | 0 <= k < |ls|
        ensures Like(DeclaredAt(f, ls, a, k), DeclaredAt(g, ms, b, k))
      {
        LikeDeclaredAt(f, ls, g, ms, a, b, k);
      }
    }
  }

  lemma {:induction false} AgreeUpTo(f: File, ls: seq<nat>, g: File, ms: seq<nat>, a: State, b: State, n: nat)
    requires SameLines(f, ls, g, ms) && LikeState(a, b) && n <= |ls|
    requires forall k | 0 <= k < |ls| :: Like(DeclaredAt(f, ls, a, k), DeclaredAt(g, ms, b, k))
    ensures forall k | 0 <= k < n :: SameLookAheadAt(f, ls, a, g, ms, k)
    decreases n
  {
    hide SameLookAheadAt, DeclaredAt, Like, LikeState;
    if n > 0 {
      AgreeUpTo(f, ls, g, ms, a, b, n - 1);
      LikeDeclaredAt(f, ls, g, ms, a, b, n - 1);
    }
  }

  // ----- the file without its `#else` regions

  /** The file that has only the given lines. */
  function Only(f: File, ls: seq<nat>): (g: File)
    requires LineNumbers(f, ls)
    ensures |g.elided| == |g.raw| == |ls| && g.patterns == f.patterns
    ensures forall k | 0 <= k < |ls| :: g.elided[k] == f.elided[ls[k]] && g.raw[k] == f.raw[ls[k]]
  {
    File(seq(|ls|, k requires 0 <= k < |ls| => f.elided[ls[k]]), seq(|ls|, k requires 0 <= k < |ls| => f.raw[ls[k]]), f.patterns)
  }

  function WithoutElse(f: File): (ls: seq<nat>)
    requires |f.elided| == |f.raw|
    ensures LineNumbers(f, ls)
  {
    Kept(f, Upto(|f.elided|), [])
  }

  lemma OnlySame(f: File, ls: seq<nat>)
    requires LineNumbers(f, ls)
    ensures SameLines(f, ls, Only(f, ls), Upto(|ls|))
  {
  }

  /** Every look-ahead of the file, made from a line that stays, gives the same answer when
      the text of all `#else` regions is deleted. */
  ghost predicate LookAheadsStay(f: File)
    requires |f.elided| == |f.raw|
  {
    var kept := WithoutElse(f);
    forall k | 0 <= k < |kept| :: SameLookAheadAt(f, kept, State([], []), Only(f, kept), Upto(|kept|), k)
  }

  /** The declarations of each line that stays leave the same stack, up to line numbers, when
      that text is deleted. */
  ghost predicate DeclarationsStay(f: File)
    requires |f.elided| == |f.raw|
  {
    var kept := WithoutElse(f);
    var g := Only(f, kept);
    forall k | 0 <= k < |kept| ::
      Like(DeclaredAt(f, kept, State([], []), k), DeclaredAt(g, Upto(|kept|), State([], []), k))
  }

  /** For every file: deleting the text of all `#else` regions keeps the stack after each
      declaration exactly when it keeps the answer of each look-ahead. */
  lemma TextErasedIff(f: File)
    requires |f.elided| == |f.raw|
    ensures DeclarationsStay(f) <==> LookAheadsStay(f)
  {
    assert LikeState(State([], []), State([], []));
    var kept := WithoutElse(f);
    hide Kept, SameLookAheadAt, DeclaredAt, Like, LikeState;
    OnlySame(f, kept);
    DeclaredAlikeIff(f, kept, Only(f, kept), Upto(|kept|), State([], []), State([], []));
  }

  /** Then the whole file ends with the same blocks, up to line numbers. */
  lemma TextErased(f: File)
    requires |f.elided| == |f.raw| && WellNested(f, Upto(|f.elided|)) && LookAheadsStay(f)
    ensures LikeState(Whole(f), Whole(Only(f, WithoutElse(f))))
  {
    assert LikeState(State([], []), State([], []));
    hide Run, Kept, TrackAll, SameLookAheadAt, LikeState;
    var kept := WithoutElse(f);
    var g := Only(f, kept);
    BranchesErased(f, Upto(|f.elided|), []);
    OnlySame(f, kept);
    LikeRun(f, kept, g, Upto(|kept|), State([], []), State([], []), |kept|);
    assert kept[..|kept|] == kept && Upto(|kept|)[..|kept|] == Upto(|kept|);
  }

  // ----- a file for which the look-ahead differs

  /** The patterns on the lines of the example: `class A` is a class head. */
  function ExamplePatterns(): Patterns {
    Patterns(line => if line == "class A" then Some(ClassDecl(7, false, "A", "")) else None, _ => None, _ => false)
  }

  /** A class head without a brace before an `#else` region that starts with `=`. */
  function Example(): File {
    var lines := ["#if", "class A", "#else", "=", "#endif"];
    File(lines, lines, ExamplePatterns())
  }

  function ShortExample(): File {
    var lines := ["#if", "class A", "#endif"];
    File(lines, lines, ExamplePatterns())
  }

  lemma {:induction false} SpanAll(s: string, p: char -> bool)
    requires All(s, p)
    ensures Span(s, p) == |s|
  {
    if s != [] {
      SpanAll(s[1..], p);
    }
  }

  lemma {:induction false} CountNone(s: string, c: char)
    requires forall k | 0 <= k < |s| :: s[k] != c
    ensures Count(s, c) == 0
  {
    if s != [] {
      CountNone(s[1..], c);
    }
  }

  /** A line without parentheses, braces, colons and semicolons whose first character is
      not a blank and does not start the word namespace. */
  predicate Simple(line: string) {
    && line != [] && !IsSpace(line[0]) && line[0] != 'n'
    && forall k | 0 <= k < |line| :: line[k] !in "(){};:"
  }

  /** A simple line that is not a class head leaves a stack as it is, if its top has no
      open parenthesis and no assembly block. */
  lemma SimpleUpdate(f: File, l: nat, s: Stack)
    requires l < |f.elided| && l < |f.raw| && Simple(f.elided[l])
    requires f.patterns == ExamplePatterns() && f.elided[l] != "class A"
    requires s == [] || Top(s).asm == NoAsm
    ensures UpdateBlocks(f, l, s) == s
  {
    var line := f.elided[l];
    SimpleCounts(f, line, s);
    SimpleNamespaces(l, line, s);
    SimpleRest(f, line, line, s);
    hide CountParentheses, ConsumeNamespaces, Consume;
  }

  lemma SimpleCounts(f: File, line: string, s: Stack)
    requires Simple(line) && (s == [] || Top(s).asm == NoAsm)
    ensures CountParentheses(f, line, s) == s
  {
    CountNone(line, '(');
    CountNone(line, ')');
    hide Count;
  }

  lemma SimpleNamespaces(l: nat, line: string, s: Stack)
    requires Simple(line)
    ensures ConsumeNamespaces(l, line, s) == (line, s)
  {
    assert LStrip(line) == line;
    assert "namespace"[0] == 'n';
    assert !StartsWith(line, "namespace");
    assert NamespaceDecl(line) == None;
  }

  lemma SimpleRest(f: File, head: string, line: string, s: Stack)
    requires Simple(head) && (line == [] || Simple(line)) && f.patterns == ExamplePatterns()
    ensures Consume(f, head, line, s) == s
  {
    assert !BareColon(head);
    SpanAll(line, NotToken);
    assert BraceToken(line) == None;
  }

  lemma WordDirective(word: string)
    requires word != [] && All(word, IsWord)
    ensures DirectiveOf("#" + word) ==
            if word == "if" || word == "ifdef" || word == "ifndef" then If
            else if word == "else" || word == "elif" then Else
            else if word == "endif" then Endif
            else Other
  {
    var line := "#" + word;
    assert LStrip(line) == line && line[1..] == word;
    assert IsWord(word[0]) && LStrip(word) == word;
    SpanAll(word, IsWord);
    assert word[..|word|] == word;
  }

  lemma NoDirective(line: string)
    requires line != [] && !IsSpace(line[0]) && line[0] != '#'
    ensures DirectiveOf(line) == Other
  {
    assert LStrip(line) == line;
  }

  lemma ExampleDirectives()
    ensures DirectiveOf("#if") == If && DirectiveOf("#else") == Else && DirectiveOf("#endif") == Endif
    ensures DirectiveOf("class A") == Other && DirectiveOf("=") == Other
  {
    hide DirectiveOf;
    WordDirective("if");
    WordDirective("else");
    WordDirective("endif");
    assert "#" + "if" == "#if" && "#" + "else" == "#else" && "#" + "endif" == "#endif";
    NoDirective("class A");
    NoDirective("=");
  }

  /** After the class head: the `=` of the `#else` region decides, or nothing does. */
  lemma ExampleLookAhead(lines: seq<string>)
    requires |lines| >= 3 && |lines[1]| == 7
    ensures lines[2] == "#else" && |lines| > 3 && lines[3] == "=" ==> InTemplate(lines, 1, 7)
    ensures lines[2] == "#endif" && |lines| == 3 ==> !InTemplate(lines, 1, 7)
  {
    QuietLine(lines, 1, 7);
    if lines[2] == "#else" && |lines| > 3 && lines[3] == "=" {
      QuietLine(lines, 2, 0);
      DecidesHere(lines, 3, 0, 0);
    } else if lines[2] == "#endif" && |lines| == 3 {
      QuietLine(lines, 2, 0);
    }
  }

  /** The class head is a class unless the look-ahead takes it for a template argument. */
  lemma ClassHead(f: File, l: nat)
    requires l < |f.elided| && l < |f.raw| && f.elided[l] == "class A" && f.patterns == ExamplePatterns()
    ensures var s := UpdateBlocks(f, l, []);
            if InTemplate(f.elided, l, 7) then s == [] else |s| == 1 && Top(s).asm == NoAsm
  {
    hide InTemplate, LastLine, IndentLevel, CountParentheses, ConsumeNamespaces, Consume;
    var line := f.elided[l];
    SimpleCounts(f, line, []);
    SimpleNamespaces(l, line, []);
    var (rest, s) := ConsumeClass(f, l, line, []);
    SimpleRest(f, line, rest, s);
  }

  lemma RunStep(f: File, l: nat, ls: seq<nat>, st: State)
    requires LineNumbers(f, [l] + ls)
    ensures LineNumbers(f, ls) && LineNumbers(f, [l])
    ensures Run(f, [l] + ls, st) == Run(f, ls, Update(f, ([l] + ls)[0], st))
  {
    assert ([l] + ls)[1..] == ls;
    assert forall k | 0 <= k < |ls| :: ls[k] == ([l] + ls)[k + 1];
  }

  lemma KeptStep(f: File, l: nat, ls: seq<nat>, flags: Flags)
    requires l < |f.elided| && l < |f.raw| && LineNumbers(f, ls)
    ensures LineNumbers(f, [l] + ls)
    ensures var d := DirectiveOf(f.elided[l]);
            && Kept(f, [l] + ls, flags) == (if Counts(flags, d) then [l] else []) + Kept(f, ls, Track(flags, d))
            && TrackAll(f, [l] + ls, flags) == TrackAll(f, ls, Track(flags, d))
  {
    assert ([l] + ls)[1..] == ls;
    assert forall k | 0 < k < |ls| + 1 :: ([l] + ls)[k] == ls[k - 1];
  }

  /** One conditional with an `#else`. */
  lemma OneConditional()
    ensures Counts([], If) && Track([], If) == [false]
    ensures Counts([false], Other) && Track([false], Other) == [false]
    ensures !Counts([false], Else) && Track([false], Else) == [true]
    ensures !Counts([true], Other) && Track([true], Other) == [true]
    ensures Counts([true], Endif) && Track([true], Endif) == []
  {
    assert DeadFrom([true]) == 0 && DeadFrom([false]) == 1;
  }

  /** The `#else` region of the example goes. */
  lemma ExampleElse(f: File)
    requires |f.elided| == |f.raw| == 5 && DirectiveOf(f.elided[2]) == Else
    requires DirectiveOf(f.elided[3]) == Other && DirectiveOf(f.elided[4]) == Endif
    ensures Kept(f, [2, 3, 4], [false]) == [4] && TrackAll(f, [2, 3, 4], [false]) == []
  {
    assert Kept(f, [], []) == [] && TrackAll(f, [], []) == [];
    hide Kept, TrackAll, DirectiveOf, Counts, Track;
    OneConditional();
    assert [2, 3, 4] == [2] + [3, 4] && [3, 4] == [3] + [4] && [4] == [4] + [];
    KeptStep(f, 4, [], [true]);
    KeptStep(f, 3, [4], [true]);
    KeptStep(f, 2, [3, 4], [false]);
  }

  /** What is kept of a file with the directives of the example. */
  lemma ExampleKept(f: File)
    requires |f.elided| == |f.raw| == 5
    requires DirectiveOf(f.elided[0]) == If && DirectiveOf(f.elided[1]) == Other && DirectiveOf(f.elided[2]) == Else
    requires DirectiveOf(f.elided[3]) == Other && DirectiveOf(f.elided[4]) == Endif
    ensures WellNested(f, Upto(5)) && WithoutElse(f) == [0, 1, 4]
  {
    hide Kept, TrackAll, DirectiveOf, Counts, Track;
    ExampleElse(f);
    OneConditional();
    var tail := [2, 3, 4];
    KeptStep(f, 1, tail, [false]);
    KeptStep(f, 0, [1] + tail, []);
    assert Upto(5) == [0] + ([1] + tail);
  }

  /** An `#if` line, the class head and an `#endif` line, read from an empty state. */
  lemma ExampleRun(f: File, e: nat)
    requires |f.elided| == |f.raw| && 1 < e < |f.elided|
    requires f.elided[0] == "#if" && f.elided[1] == "class A" && f.elided[e] == "#endif" && f.patterns == ExamplePatterns()
    ensures var s := Run(f, [0, 1, e], State([], [])).stack;
            if InTemplate(f.elided, 1, 7) then s == [] else |s| == 1
  {
    ExampleDirectives();
    hide DirectiveOf, UpdateBlocks, InTemplate;
    var st0 := State([], []);
    SimpleUpdate(f, 0, []);
    var st1 := Update(f, 0, st0);
    ClassHead(f, 1);
    var st2 := Update(f, 1, st1);
    SimpleUpdate(f, e, st2.stack);
    var st3 := Update(f, e, st2);
    assert st3.stack == st2.stack == UpdateBlocks(f, 1, []);
    ThreeLines(f, e, st0);
  }

  lemma ThreeLines(f: File, e: nat, st: State)
    requires |f.elided| == |f.raw| && 1 < e < |f.elided|
    ensures Run(f, [0, 1, e], st) == Update(f, e, Update(f, 1, Update(f, 0, st)))
  {
    hide Update;
    assert [0, 1, e] == [0] + [1, e] && [1, e] == [1] + [e] && [e] == [e] + [];
    RunStep(f, 0, [1, e], st);
    RunStep(f, 1, [e], Update(f, 0, st));
  }

  /** Without the condition on look-ahead the deletion does change the stack: in the example
      the deleted text held the character that made the class head a template argument. */
  lemma TextNotErased()
    ensures WellNested(Example(), Upto(5)) && Only(Example(), WithoutElse(Example())) == ShortExample()
    ensures !LikeState(Whole(Example()), Whole(ShortExample())) && !LookAheadsStay(Example())
  {
    hide Run, Kept, TrackAll, DirectiveOf, InTemplate;
    var f, g := Example(), ShortExample();
    ExampleDirectives();
    ExampleKept(f);
    assert Only(f, [0, 1, 4]).elided == g.elided && Only(f, [0, 1, 4]).raw == g.raw;
    BranchesErased(f, Upto(5), []);
    ExampleRun(f, 4);
    ExampleLookAhead(f.elided);
    ExampleRun(g, 2);
    ExampleLookAhead(g.elided);
    assert Upto(3) == [0, 1, 2];
    if LookAheadsStay(f) {
      TextErased(f);
    }
  }
}
