/** The nesting tracker as a function on values: what one call of NestingState.Update
    does to the stack of open blocks and to the stack of open `#if` directives. */
module Nesting {
  import opened Chars
  import opened TemplateArgs

  // ----- blocks

  datatype Asm = NoAsm | InsideAsm | EndAsm | BlockAsm

  /** What a block is.  These parts never change once the block exists. */
  datatype Kind =
    | Brace
    | ExternC
    | Namespace(name: string, startingLine: nat)
    | Class(name: string, isStruct: bool, startingLine: nat, indent: nat, lastLine: nat)

  /** A block with the attributes that Update changes in place. */
  datatype Block = Block(kind: Kind, seenOpenBrace: bool, openParentheses: int, asm: Asm, access: string, isDerived: bool)

  function NewBlock(kind: Kind): Block {
    match kind
    case Brace => Block(kind, true, 0, NoAsm, "", false)
    case ExternC => Block(kind, true, 0, NoAsm, "", false)
    case Namespace(_, _) => Block(kind, false, 0, NoAsm, "", false)
    case Class(_, isStruct, _, _, _) => Block(kind, false, 0, NoAsm, if isStruct then "public" else "private", false)
  }

  type Stack = seq<Block>

  datatype Saved = Saved(beforeIf: Stack, beforeElse: Stack, seenElse: bool)

  datatype State = State(stack: Stack, pp: seq<Saved>)

  // ----- the file and its patterns

  datatype ClassDecl = ClassDecl(headLength: nat, isStruct: bool, name: string, rest: string)

  /** The patterns for class heads, access specifiers and inline assembly, as arbitrary
      functions of a line: nothing below depends on what they accept. */
  datatype Patterns = Patterns(classDecl: string -> Option<ClassDecl>, access: string -> Option<string>, asm: string -> bool)

  datatype File = File(elided: seq<string>, raw: seq<string>, patterns: Patterns)

  datatype Directive = If | Else | Endif | Other

  /** `^\s*#\s*(if|ifdef|ifndef)\b`, `^\s*#\s*(else|elif)\b` and `^\s*#\s*endif\b` */
  function DirectiveOf(line: string): Directive {
    var t := LStrip(line);
    if t == [] || t[0] != '#' then Other
    else
      var u := LStrip(t[1..]);
      var word := u[..Span(u, IsWord)];
      if word == "if" || word == "ifdef" || word == "ifndef" then If
      else if word == "else" || word == "elif" then Else
      else if word == "endif" then Endif
      else Other
  }

  predicate NameChar(c: char) {
    c == ':' || IsWord(c)
  }

  /** `^\s*namespace\b\s*([:\w]+)?(.*)$`: the name, empty if absent, and the rest. */
  function NamespaceDecl(line: string): (r: Option<(string, string)>)
    ensures r.Some? ==> |r.value.1| < |line|
  {
    var t := LStrip(line);
    LStripShorter(line);
    if StartsWith(t, "namespace") && (|t| == 9 || !IsWord(t[9])) then
      var u := LStrip(t[9..]);
      LStripShorter(t[9..]);
      var n := Span(u, NameChar);
      var rest := DotStar(u[n..]);
      if rest.Some? then Some((u[..n], rest.value)) else None
    else None
  }

  lemma LStripShorter(s: string)
    ensures |LStrip(s)| <= |s|
  {
  }

  predicate NotToken(c: char) {
    c !in "{;)}"
  }

  /** `^[^{;)}]*([{;)}])(.*)$`: the token and the rest. */
  function BraceToken(line: string): (r: Option<(char, string)>)
    ensures r.Some? ==> |r.value.1| < |line|
  {
    var n := Span(line, NotToken);
    if n == |line| then None
    else
      var rest := DotStar(line[n + 1..]);
      if rest.Some? then Some((line[n], rest.value)) else None
  }

  predicate NoQuote(c: char) {
    c != '"'
  }

  /** `^extern\s*"[^"]*"\s*\{` */
  predicate ExternBrace(line: string) {
    StartsWith(line, "extern") &&
    var t := LStrip(line[6..]);
    t != [] && t[0] == '"' &&
    var n := Span(t[1..], NoQuote);
    n < |t[1..]| &&
    var u := LStrip(t[1..][n + 1..]);
    u != [] && u[0] == '{'
  }

  predicate ColonAt(line: string, k: nat)
    requires k < |line|
  {
    line[k] == ':' && (k == 0 || line[k - 1] != ':') && (k + 1 == |line| || line[k + 1] != ':')
  }

  /** `(^|[^:]):($|[^:])` */
  predicate BareColon(line: string) {
    exists k :: 0 <= k < |line| && ColonAt(line, k)
  }

  predicate IsBlank(c: char) {
    c == ' '
  }

  /** The number of leading blanks of a line that has other characters. */
  function IndentLevel(line: string): nat {
    var n := Span(line, IsBlank);
    if n < |line| && !IsSpace(line[n]) then n else 0
  }

  /** The first line at which the braces opened since the class head balance, or 0. */
  function LastLine(elided: seq<string>, i: nat, depth: int): nat
    decreases |elided| - i
  {
    if i >= |elided| then 0
    else
      var d := depth + Count(elided[i], '{') - Count(elided[i], '}');
      if d == 0 then i else LastLine(elided, i + 1, d)
  }

  // ----- preprocessor directives

  /** The effect of a directive: `#if` puts the stack aside, `#else` and `#elif` return to
      it (the first of them puts the present stack aside too), and `#endif` returns to what
      the first `#else` put aside, if there was one. */
  function UpdatePreprocessor(st: State, d: Directive): State {
    match d
    case If => st.(pp := st.pp + [Saved(st.stack, [], false)])
    case Else =>
      if st.pp == [] then st
      else
        var top := st.pp[|st.pp| - 1];
        var top' := if top.seenElse then top else top.(seenElse := true, beforeElse := st.stack);
        State(top.beforeIf, st.pp[..|st.pp| - 1] + [top'])
    case Endif =>
      if st.pp == [] then st
      else
        var top := st.pp[|st.pp| - 1];
        State(if top.seenElse then top.beforeElse else st.stack, st.pp[..|st.pp| - 1])
    case Other => st
  }

  /** The directive puts another stack in the place of the present one. */
  predicate Replaces(st: State, d: Directive) {
    st.pp != [] && (d == Else || (d == Endif && st.pp[|st.pp| - 1].seenElse))
  }

  // ----- the parts of Update that work on the stack of blocks

  function Top(s: Stack): Block
    requires s != []
  {
    s[|s| - 1]
  }

  function SetTop(s: Stack, b: Block): Stack
    requires s != []
  {
    s[..|s| - 1] + [b]
  }

  predicate SeenOpenBrace(s: Stack) {
    s == [] || Top(s).seenOpenBrace
  }

  function Parenthesize(f: File, line: string, b: Block): Block {
    var change := Count(line, '(') - Count(line, ')');
    var open := b.openParentheses + change;
    var asm :=
      if b.asm == NoAsm || b.asm == EndAsm then
        if change != 0 && open == 1 && f.patterns.asm(line) then InsideAsm else NoAsm
      else if b.asm == InsideAsm && open == 0 then EndAsm
      else b.asm;
    b.(openParentheses := open, asm := asm)
  }

  function CountParentheses(f: File, line: string, s: Stack): Stack {
    if s == [] then s else SetTop(s, Parenthesize(f, line, Top(s)))
  }

  /** Opens one namespace per declaration at the start of the line; the rest of the line
      comes back with the new stack. */
  function ConsumeNamespaces(l: nat, line: string, s: Stack): (string, Stack)
    decreases |line|
  {
    match NamespaceDecl(line)
    case None => (line, s)
    case Some((name, rest)) =>
      var brace := Find(rest, "{", 0);
      var b := NewBlock(Namespace(name, l)).(seenOpenBrace := brace != -1);
      ConsumeNamespaces(l, if brace != -1 then rest[brace + 1..] else rest, s + [b])
  }

  function ConsumeClass(f: File, l: nat, line: string, s: Stack): (string, Stack)
    requires l < |f.raw|
  {
    match f.patterns.classDecl(line)
    case None => (line, s)
    case Some(d) =>
      if (s == [] || Top(s).openParentheses == 0) && !InTemplate(f.elided, l, d.headLength) then
        (d.rest, s + [NewBlock(Class(d.name, d.isStruct, l, IndentLevel(f.raw[l]), LastLine(f.elided, l, 0)))])
      else (line, s)
  }

  /** The checks on the text before an opening brace: a class with a bare colon is derived. */
  function CheckBegin(head: string, s: Stack): Stack {
    if !SeenOpenBrace(s) && Top(s).kind.Class? && BareColon(head) then SetTop(s, Top(s).(isDerived := true)) else s
  }

  function UpdateAccess(f: File, line: string, s: Stack): Stack {
    if s != [] && Top(s).kind.Class? && f.patterns.access(line).Some?
    then SetTop(s, Top(s).(access := f.patterns.access(line).value))
    else s
  }

  /** The effect of one brace, semicolon or closing parenthesis. */
  function ConsumeToken(f: File, token: char, line: string, s: Stack): Stack {
    if token == '{' then
      if !SeenOpenBrace(s) then SetTop(s, Top(s).(seenOpenBrace := true))
      else if ExternBrace(line) then s + [NewBlock(ExternC)]
      else s + [NewBlock(Brace).(asm := if f.patterns.asm(line) then BlockAsm else NoAsm)]
    else if token == ';' || token == ')' then
      if !SeenOpenBrace(s) then s[..|s| - 1] else s
    else
      if s != [] then s[..|s| - 1] else s
  }

  function ConsumeBraces(f: File, line: string, s: Stack): Stack
    decreases |line|
  {
    match BraceToken(line)
    case None => s
    case Some((token, rest)) => ConsumeBraces(f, rest, ConsumeToken(f, token, line, s))
  }

  /** The declarations at the start of the line. */
  function Declare(f: File, l: nat, s: Stack): (string, Stack)
    requires l < |f.elided| && l < |f.raw|
  {
    var s1 := CountParentheses(f, f.elided[l], s);
    var (line2, s2) := ConsumeNamespaces(l, f.elided[l], s1);
    ConsumeClass(f, l, line2, s2)
  }

  /** What is left of the line after the declarations. */
  function Consume(f: File, head: string, line: string, s: Stack): Stack {
    ConsumeBraces(f, line, UpdateAccess(f, line, CheckBegin(head, s)))
  }

  /** Everything that Update does to the stack after the directives are handled. */
  function UpdateBlocks(f: File, l: nat, s: Stack): Stack
    requires l < |f.elided| && l < |f.raw|
  {
    var (line, s') := Declare(f, l, s);
    Consume(f, f.elided[l], line, s')
  }

  function Update(f: File, l: nat, st: State): State
    requires l < |f.elided| && l < |f.raw|
  {
    var st' := UpdatePreprocessor(st, DirectiveOf(f.elided[l]));
    st'.(stack := UpdateBlocks(f, l, st'.stack))
  }
}

/** Text between an `#else` or `#elif` and its `#endif` has no effect on the nesting stack. */
module BranchErasure {
  import opened Nesting

  predicate LineNumbers(f: File, ls: seq<nat>) {
    forall k | 0 <= k < |ls| :: ls[k] < |f.elided| && ls[k] < |f.raw|
  }

  /** Update called for the lines `ls`, in that order. */
  function Run(f: File, ls: seq<nat>, st: State): State
    requires LineNumbers(f, ls)
  {
    if ls == [] then st else Run(f, ls[1..], Update(f, ls[0], st))
  }

  /** The line numbers below `n`. */
  function Upto(n: nat): (r: seq<nat>)
    ensures |r| == n && forall k | 0 <= k < n :: r[k] == k
  {
    seq(n, k => k)
  }

  /** The whole file, read from an empty state. */
  function Whole(f: File): State
    requires |f.elided| == |f.raw|
  {
    Run(f, Upto(|f.elided|), State([], []))
  }

  lemma {:induction false} RunLast(f: File, ls: seq<nat>, l: nat, st: State)
    requires LineNumbers(f, ls + [l])
    ensures LineNumbers(f, ls)
    ensures Run(f, ls + [l], st) == Update(f, (ls + [l])[|ls|], Run(f, ls, st))
    decreases |ls|
  {
    assert forall k | 0 <= k < |ls| :: (ls + [l])[k] == ls[k];
    if ls != [] {
      assert (ls + [l])[1..] == ls[1..] + [l];
      RunLast(f, ls[1..], l, Update(f, ls[0], st));
    }
  }

  /** For each open `#if`, whether its `#else` or `#elif` has been passed. */
  type Flags = seq<bool>

  function Track(flags: Flags, d: Directive): Flags {
    match d
    case If => flags + [false]
    case Else => if flags == [] then [] else flags[..|flags| - 1] + [true]
    case Endif => if flags == [] then [] else flags[..|flags| - 1]
    case Other => flags
  }

  /** Index of the outermost conditional whose `#else` has been passed; the number of
      open conditionals if there is none. */
  function DeadFrom(flags: Flags, i: nat := 0): (j: nat)
    requires i <= |flags|
    ensures i <= j <= |flags|
    ensures forall k | i <= k < j :: !flags[k]
    ensures j < |flags| ==> flags[j]
    decreases |flags| - i
  {
    if i == |flags| || flags[i] then i else DeadFrom(flags, i + 1)
  }

  predicate Dead(flags: Flags) {
    DeadFrom(flags) < |flags|
  }

  /** A line counts unless it lies in an `#else` region, which starts with the `#else`
      line and ends before the `#endif` line. */
  predicate Counts(flags: Flags, d: Directive) {
    match d
    case Else => flags == []
    case Endif => flags == [] || DeadFrom(flags) >= |flags| - 1
    case If => !Dead(flags)
    case Other => !Dead(flags)
  }

  function TrackAll(f: File, ls: seq<nat>, flags: Flags): Flags
    requires LineNumbers(f, ls)
  {
    if ls == [] then flags else TrackAll(f, ls[1..], Track(flags, DirectiveOf(f.elided[ls[0]])))
  }

  /** The lines that remain when every `#else` region is left out. */
  function Kept(f: File, ls: seq<nat>, flags: Flags): (r: seq<nat>)
    requires LineNumbers(f, ls)
    ensures LineNumbers(f, r)
  {
    if ls == [] then []
    else
      var d := DirectiveOf(f.elided[ls[0]]);
      (if Counts(flags, d) then [ls[0]] else []) + Kept(f, ls[1..], Track(flags, d))
  }

  ghost predicate Tracks(flags: Flags, pp: seq<Saved>) {
    && |flags| == |pp|
    && forall k | 0 <= k < |flags| :: flags[k] == pp[k].seenElse
  }

  /** Inside an `#else` region, the full run has put aside the stack of the other run. */
  ghost predicate PutAside(flags: Flags, pp: seq<Saved>, kept: State)
    requires Dead(flags) && Tracks(flags, pp)
  {
    var j := DeadFrom(flags);
    && |kept.pp| == j + 1
    && (forall k | 0 <= k < j :: kept.pp[k] == pp[k])
    && !kept.pp[j].seenElse
    && kept.stack == pp[j].beforeElse
  }

  /** How the full run relates to the run over the remaining lines. */
  ghost predicate Agree(flags: Flags, full: State, kept: State) {
    && Tracks(flags, full.pp)
    && if Dead(flags) then PutAside(flags, full.pp, kept) else full == kept
  }

  lemma AgreeStep(f: File, l: nat, flags: Flags, full: State, kept: State)
    requires l < |f.elided| && l < |f.raw| && Agree(flags, full, kept)
    ensures var d := DirectiveOf(f.elided[l]);
            Agree(Track(flags, d), Update(f, l, full), if Counts(flags, d) then Update(f, l, kept) else kept)
  {
    var d := DirectiveOf(f.elided[l]);
    if !Dead(flags) {
      DirectiveOutside(d, flags, full);
    } else if d == Endif && DeadFrom(flags) == |flags| - 1 {
      DirectiveLeaves(flags, full, kept);
    } else {
      DirectiveInside(d, flags, full, kept);
    }
  }

  /** Outside `#else` regions. */
  lemma DirectiveOutside(d: Directive, flags: Flags, st: State)
    requires !Dead(flags) && Tracks(flags, st.pp)
    ensures var st' := UpdatePreprocessor(st, d);
            var flags' := Track(flags, d);
            && Tracks(flags', st'.pp)
            && if d == Else && flags != [] then Dead(flags') && PutAside(flags', st'.pp, st) && !Counts(flags, d)
               else !Dead(flags') && Counts(flags, d)
  {
    var flags' := Track(flags, d);
    if d == Else && flags != [] {
      assert flags'[|flags| - 1];
      assert DeadFrom(flags') == |flags| - 1;
    }
  }

  /** Inside an `#else` region, what was put aside stays. */
  lemma DirectiveInside(d: Directive, flags: Flags, full: State, kept: State)
    requires Dead(flags) && Tracks(flags, full.pp) && PutAside(flags, full.pp, kept)
    requires !(d == Endif && DeadFrom(flags) == |flags| - 1)
    ensures var pp' := UpdatePreprocessor(full, d).pp;
            var flags' := Track(flags, d);
            && Tracks(flags', pp')
            && Dead(flags') && PutAside(flags', pp', kept) && !Counts(flags, d)
  {
    var j := DeadFrom(flags);
    StillTracked(d, flags, full);
    SavedStays(d, full, j);
    StillAside(flags, full.pp, Track(flags, d), UpdatePreprocessor(full, d).pp, kept);
  }

  lemma StillTracked(d: Directive, flags: Flags, st: State)
    requires Dead(flags) && Tracks(flags, st.pp)
    requires !(d == Endif && DeadFrom(flags) == |flags| - 1)
    ensures var flags' := Track(flags, d);
            && Tracks(flags', UpdatePreprocessor(st, d).pp)
            && DeadFrom(flags') == DeadFrom(flags) < |flags'|
            && !Counts(flags, d)
  {
    assert Track(flags, d)[DeadFrom(flags)];
  }

  /** A directive touches only the innermost conditional, and what an `#else` has put
      aside only when it ends. */
  lemma SavedStays(d: Directive, st: State, j: nat)
    requires j < |st.pp| && st.pp[j].seenElse && !(d == Endif && j == |st.pp| - 1)
    ensures var pp' := UpdatePreprocessor(st, d).pp;
            && j < |pp'|
            && (forall k | 0 <= k < j :: pp'[k] == st.pp[k])
            && pp'[j].beforeElse == st.pp[j].beforeElse
  {
  }

  lemma StillAside(flags: Flags, pp: seq<Saved>, flags': Flags, pp': seq<Saved>, kept: State)
    requires Dead(flags) && Tracks(flags, pp) && PutAside(flags, pp, kept) && Tracks(flags', pp')
    requires DeadFrom(flags') == DeadFrom(flags) < |flags'|
    requires forall k | 0 <= k < DeadFrom(flags) :: pp'[k] == pp[k]
    requires pp'[DeadFrom(flags)].beforeElse == pp[DeadFrom(flags)].beforeElse
    ensures Dead(flags') && PutAside(flags', pp', kept)
  {
  }

  /** The `#endif` of the region brings back what was put aside. */
  lemma DirectiveLeaves(flags: Flags, full: State, kept: State)
    requires Dead(flags) && Tracks(flags, full.pp) && PutAside(flags, full.pp, kept)
    requires DeadFrom(flags) == |flags| - 1
    ensures var full' := UpdatePreprocessor(full, Endif);
            var flags' := Track(flags, Endif);
            && full' == UpdatePreprocessor(kept, Endif)
            && Tracks(flags', full'.pp)
            && !Dead(flags') && Counts(flags, Endif)
  {
  }

  /** For every file, whatever its directives, and every start outside an `#else` region:
      the full run agrees with the run that leaves out the `#else` regions. */
  lemma {:induction false} RunsAgree(f: File, ls: seq<nat>, flags: Flags, full: State, kept: State)
    requires LineNumbers(f, ls) && Agree(flags, full, kept)
    ensures Agree(TrackAll(f, ls, flags), Run(f, ls, full), Run(f, Kept(f, ls, flags), kept))
    decreases |ls|
  {
    if ls != [] {
      var d := DirectiveOf(f.elided[ls[0]]);
      AgreeStep(f, ls[0], flags, full, kept);
      var rest := Kept(f, ls[1..], Track(flags, d));
      if Counts(flags, d) {
        assert Kept(f, ls, flags)[1..] == rest;
        RunsAgree(f, ls[1..], Track(flags, d), Update(f, ls[0], full), Update(f, ls[0], kept));
      } else {
        assert Kept(f, ls, flags) == rest;
        RunsAgree(f, ls[1..], Track(flags, d), Update(f, ls[0], full), kept);
      }
    }
  }

  /** Conditionals are well nested when every `#if` that is opened has been closed. */
  predicate WellNested(f: File, ls: seq<nat>)
    requires LineNumbers(f, ls)
  {
    TrackAll(f, ls, []) == []
  }

  /** For a file with well nested conditionals, at any depth and with any number of
      `#else` and `#elif`, the tracker ends with the nesting stack of the file without
      its `#else` regions, and with no conditional left open. */
  lemma BranchesErased(f: File, ls: seq<nat>, stack: Stack)
    requires LineNumbers(f, ls) && WellNested(f, ls)
    ensures Run(f, ls, State(stack, [])) == Run(f, Kept(f, ls, []), State(stack, []))
    ensures Run(f, ls, State(stack, [])).pp == []
  {
    RunsAgree(f, ls, [], State(stack, []), State(stack, []));
  }

  // ----- a stretch inside other conditionals

  /** The stretch opens and closes its own conditionals only: read from `d` open ones, it
      closes each of them, and no directive belongs to a conditional opened before it. */
  predicate Enclosed(f: File, ls: seq<nat>, d: nat)
    requires LineNumbers(f, ls)
  {
    if ls == [] then d == 0
    else
      match DirectiveOf(f.elided[ls[0]])
      case If => Enclosed(f, ls[1..], d + 1)
      case Else => d > 0 && Enclosed(f, ls[1..], d)
      case Endif => d > 0 && Enclosed(f, ls[1..], d - 1)
      case Other => Enclosed(f, ls[1..], d)
  }

  /** The state with the conditionals `base` under its own. */
  function Under(base: seq<Saved>, st: State): State {
    st.(pp := base + st.pp)
  }

  lemma DirectiveUnder(base: seq<Saved>, st: State, d: Directive)
    requires st.pp != [] || d == If || d == Other
    ensures UpdatePreprocessor(Under(base, st), d) == Under(base, UpdatePreprocessor(st, d))
  {
    var pp := base + st.pp;
    if st.pp != [] {
      assert pp[|pp| - 1] == st.pp[|st.pp| - 1];
      assert pp[..|pp| - 1] == base + st.pp[..|st.pp| - 1];
    }
    assert forall x: Saved :: pp + [x] == base + (st.pp + [x]);
    assert forall x: Saved :: st.pp != [] ==> pp[..|pp| - 1] + [x] == base + (st.pp[..|st.pp| - 1] + [x]);
  }

  /** A stretch does not look at the conditionals around it. */
  lemma {:induction false} RunUnder(f: File, ls: seq<nat>, base: seq<Saved>, st: State)
    requires LineNumbers(f, ls) && Enclosed(f, ls, |st.pp|)
    ensures Run(f, ls, Under(base, st)) == Under(base, Run(f, ls, st))
    decreases |ls|
  {
    hide DirectiveOf, UpdateBlocks;
    if ls != [] {
      var d := DirectiveOf(f.elided[ls[0]]);
      DirectiveUnder(base, st, d);
      RunUnder(f, ls[1..], base, Update(f, ls[0], st));
    }
  }

  lemma {:induction false} EnclosedTracks(f: File, ls: seq<nat>, flags: Flags)
    requires LineNumbers(f, ls) && Enclosed(f, ls, |flags|)
    ensures TrackAll(f, ls, flags) == []
    decreases |ls|
  {
    hide DirectiveOf;
    if ls != [] {
      EnclosedTracks(f, ls[1..], Track(flags, DirectiveOf(f.elided[ls[0]])));
    }
  }

  /** How many conditionals are open for the run without `#else` regions. */
  function OpenIn(flags: Flags): nat {
    if Dead(flags) then DeadFrom(flags) + 1 else |flags|
  }

  lemma OpenInStep(flags: Flags, d: Directive)
    requires d == If || d == Other || flags != []
    ensures !Counts(flags, d) ==> OpenIn(Track(flags, d)) == OpenIn(flags)
    ensures Counts(flags, d) ==>
              match d
              case If => OpenIn(Track(flags, d)) == OpenIn(flags) + 1
              case Else => false
              case Endif => OpenIn(flags) > 0 && OpenIn(Track(flags, d)) == OpenIn(flags) - 1
              case Other => OpenIn(Track(flags, d)) == OpenIn(flags)
  {
    var st := State([], seq(|flags|, k requires 0 <= k < |flags| => Saved([], [], flags[k])));
    if !Dead(flags) {
      DirectiveOutside(d, flags, st);
    } else if !(d == Endif && DeadFrom(flags) == |flags| - 1) {
      StillTracked(d, flags, st);
    }
  }

  lemma {:induction false} KeptEnclosed(f: File, ls: seq<nat>, flags: Flags)
    requires LineNumbers(f, ls) && Enclosed(f, ls, |flags|)
    ensures Enclosed(f, Kept(f, ls, flags), OpenIn(flags))
    decreases |ls|
  {
    hide DirectiveOf, Counts, DeadFrom;
    if ls == [] {
      assert flags == [];
    } else {
      var d := DirectiveOf(f.elided[ls[0]]);
      var rest := Kept(f, ls[1..], Track(flags, d));
      OpenInStep(flags, d);
      KeptEnclosed(f, ls[1..], Track(flags, d));
      if Counts(flags, d) {
        assert Kept(f, ls, flags)[1..] == rest;
      } else {
        assert Kept(f, ls, flags) == rest;
      }
    }
  }

  /** The same for a stretch that is well nested in itself, anywhere in a file, also in the
      middle of an `#else` region: conditionals that were open before it are as they were. */
  lemma StretchErased(f: File, ls: seq<nat>, st: State)
    requires LineNumbers(f, ls) && Enclosed(f, ls, 0)
    ensures Run(f, ls, st) == Run(f, Kept(f, ls, []), st)
    ensures Run(f, ls, st).pp == st.pp
  {
    hide Run, Kept, TrackAll, Enclosed;
    var alone := State(st.stack, []);
    assert Under(st.pp, alone) == st;
    EnclosedTracks(f, ls, []);
    BranchesErased(f, ls, st.stack);
    RunUnder(f, ls, st.pp, alone);
    KeptEnclosed(f, ls, []);
    RunUnder(f, Kept(f, ls, []), st.pp, alone);
  }
}
