/** The nesting stack over any lines, with declarations, access specifiers and conditionals:
    each line is read as a list of events, and the events alone say which blocks are open. */
module NestingEvents {
  import opened Chars
  import opened TemplateArgs
  import opened Nesting
  import opened BranchErasure
  import Depth = NestingDepth

  // ----- events and what they do

  /** A declaration, an opening brace, a semicolon or closing parenthesis, a closing brace. */
  datatype Event = Declared(kind: Kind) | Open(external: bool) | End | Close

  /** The part of a block that does not depend on the text inside it. */
  datatype Frame = Frame(kind: Kind, isOpen: bool)

  type Frames = seq<Frame>

  predicate Waits(fs: Frames) {
    fs != [] && !fs[|fs| - 1].isOpen
  }

  function Apply(fs: Frames, e: Event): Frames {
    match e
    case Declared(kind) => fs + [Frame(kind, false)]
    case Open(external) =>
      if Waits(fs) then fs[..|fs| - 1] + [Frame(fs[|fs| - 1].kind, true)]
      else fs + [Frame(if external then ExternC else Brace, true)]
    case End => if Waits(fs) then fs[..|fs| - 1] else fs
    case Close => if fs == [] then [] else fs[..|fs| - 1]
  }

  function ApplyAll(fs: Frames, es: seq<Event>): Frames
    decreases |es|
  {
    if es == [] then fs else ApplyAll(Apply(fs, es[0]), es[1..])
  }

  lemma {:induction false} ApplyConcat(fs: Frames, a: seq<Event>, b: seq<Event>)
    ensures ApplyAll(fs, a + b) == ApplyAll(ApplyAll(fs, a), b)
    decreases |a|
  {
    hide Apply;
    if a == [] {
      assert a + b == b;
    } else {
      assert (a + b)[1..] == a[1..] + b;
      ApplyConcat(Apply(fs, a[0]), a[1..], b);
    }
  }

  // ----- the events of a line

  function FrameOf(b: Block): Frame {
    Frame(b.kind, b.seenOpenBrace)
  }

  function FramesOf(s: Stack): (fs: Frames)
    ensures |fs| == |s| && forall k | 0 <= k < |s| :: fs[k] == FrameOf(s[k])
  {
    seq(|s|, k requires 0 <= k < |s| => FrameOf(s[k]))
  }

  function EventOf(token: char, line: string): Event {
    if token == '{' then Open(ExternBrace(line)) else if token == ';' || token == ')' then End else Close
  }

  /** The tokens of what is left of a line. */
  function Tokens(line: string): seq<Event>
    decreases |line|
  {
    match BraceToken(line)
    case None => []
    case Some((token, rest)) => [EventOf(token, line)] + Tokens(rest)
  }

  /** The namespaces at the start of a line, with the braces read along with them. */
  function Namespaces(l: nat, line: string): (seq<Event>, string)
    decreases |line|
  {
    match NamespaceDecl(line)
    case None => ([], line)
    case Some((name, rest)) =>
      var brace := Find(rest, "{", 0);
      if brace != -1 then
        var (es, last) := Namespaces(l, rest[brace + 1..]);
        ([Declared(Namespace(name, l)), Open(false)] + es, last)
      else
        var (es, last) := Namespaces(l, rest);
        ([Declared(Namespace(name, l))] + es, last)
  }

  /** A class head counts outside of parentheses and of template arguments. */
  predicate Counted(f: File, l: nat, d: ClassDecl, s: Stack) {
    (s == [] || Top(s).openParentheses == 0) && !InTemplate(f.elided, l, d.headLength)
  }

  function ClassKind(f: File, l: nat, d: ClassDecl): Kind
    requires l < |f.raw|
  {
    Class(d.name, d.isStruct, l, IndentLevel(f.raw[l]), LastLine(f.elided, l, 0))
  }

  /** The events of line `l`, met with the stack `s`; only whether a class head counts depends
      on the stack. */
  function LineEvents(f: File, l: nat, s: Stack): seq<Event>
    requires l < |f.elided| && l < |f.raw|
  {
    var (es, line) := Namespaces(l, f.elided[l]);
    var t := ConsumeNamespaces(l, f.elided[l], CountParentheses(f, f.elided[l], s)).1;
    var d := f.patterns.classDecl(line);
    if d.Some? && Counted(f, l, d.value, t) then es + [Declared(ClassKind(f, l, d.value))] + Tokens(d.value.rest)
    else es + Tokens(line)
  }

  lemma SameFrames(s: Stack, t: Stack)
    requires |s| == |t| && forall k | 0 <= k < |s| :: FrameOf(s[k]) == FrameOf(t[k])
    ensures FramesOf(s) == FramesOf(t)
  {
  }

  lemma PushFrame(s: Stack, b: Block)
    ensures FramesOf(s + [b]) == FramesOf(s) + [FrameOf(b)]
  {
  }

  lemma PopFrame(s: Stack)
    requires s != []
    ensures FramesOf(s[..|s| - 1]) == FramesOf(s)[..|s| - 1]
  {
  }

  lemma TokenReads(f: File, token: char, line: string, s: Stack)
    ensures FramesOf(ConsumeToken(f, token, line, s)) == Apply(FramesOf(s), EventOf(token, line))
  {
    hide ExternBrace;
    assert SeenOpenBrace(s) <==> !Waits(FramesOf(s));
    if s != [] {
      PopFrame(s);
      PushFrame(s[..|s| - 1], Top(s).(seenOpenBrace := true));
    }
    PushFrame(s, NewBlock(ExternC));
    PushFrame(s, NewBlock(Brace).(asm := if f.patterns.asm(line) then BlockAsm else NoAsm));
  }

  lemma {:induction false} BracesRead(f: File, line: string, s: Stack)
    ensures FramesOf(ConsumeBraces(f, line, s)) == ApplyAll(FramesOf(s), Tokens(line))
    decreases |line|
  {
    hide BraceToken, ConsumeToken, Apply, EventOf, FramesOf;
    var m := BraceToken(line);
    if m.Some? {
      var (token, rest) := m.value;
      TokenReads(f, token, line, s);
      BracesRead(f, rest, ConsumeToken(f, token, line, s));
      assert Tokens(line)[1..] == Tokens(rest);
    }
  }

  lemma DeclareReads(s: Stack, b: Block, brace: bool)
    requires b.seenOpenBrace == brace
    ensures FramesOf(s + [b]) ==
            ApplyAll(FramesOf(s), if brace then [Declared(b.kind), Open(false)] else [Declared(b.kind)])
  {
    PushFrame(s, b);
    var fs := FramesOf(s);
    var waiting := fs + [Frame(b.kind, false)];
    assert Apply(fs, Declared(b.kind)) == waiting;
    assert waiting[..|waiting| - 1] == fs;
    if brace {
      ApplyConcat(fs, [Declared(b.kind)], [Open(false)]);
      assert [Declared(b.kind)] + [Open(false)] == [Declared(b.kind), Open(false)];
    }
  }

  lemma {:induction false} NamespacesRead(l: nat, line: string, s: Stack)
    ensures var (last, t) := ConsumeNamespaces(l, line, s);
            last == Namespaces(l, line).1 && FramesOf(t) == ApplyAll(FramesOf(s), Namespaces(l, line).0)
    decreases |line|
  {
    hide NamespaceDecl, Find, Apply, FramesOf;
    var d := NamespaceDecl(line);
    if d.Some? {
      var (name, rest) := d.value;
      var brace := Find(rest, "{", 0);
      var b := NewBlock(Namespace(name, l)).(seenOpenBrace := brace != -1);
      var rest' := if brace != -1 then rest[brace + 1..] else rest;
      DeclareReads(s, b, brace != -1);
      NamespacesRead(l, rest', s + [b]);
      ApplyConcat(FramesOf(s), if brace != -1 then [Declared(b.kind), Open(false)] else [Declared(b.kind)], Namespaces(l, rest').0);
    }
  }

  lemma ChecksKeepFrames(f: File, head: string, line: string, s: Stack)
    ensures FramesOf(CountParentheses(f, line, s)) == FramesOf(s)
    ensures FramesOf(UpdateAccess(f, line, CheckBegin(head, s))) == FramesOf(s)
  {
    hide Count, BareColon;
    SameFrames(CountParentheses(f, line, s), s);
    SameFrames(CheckBegin(head, s), s);
    SameFrames(UpdateAccess(f, line, CheckBegin(head, s)), CheckBegin(head, s));
  }

  /** What Update does to the blocks is what the events of the line do to their frames. */
  lemma LineReads(f: File, l: nat, s: Stack)
    requires l < |f.elided| && l < |f.raw|
    ensures FramesOf(UpdateBlocks(f, l, s)) == ApplyAll(FramesOf(s), LineEvents(f, l, s))
  {
    hide FramesOf, Tokens, Namespaces, ConsumeBraces, ConsumeNamespaces, CountParentheses, UpdateAccess, CheckBegin, InTemplate, LastLine, Apply;
    var line := f.elided[l];
    ChecksKeepFrames(f, line, line, s);
    var s1 := CountParentheses(f, line, s);
    NamespacesRead(l, line, s1);
    var (line2, s2) := ConsumeNamespaces(l, line, s1);
    var (line3, s3) := ConsumeClass(f, l, line2, s2);
    ChecksKeepFrames(f, line, line3, s3);
    BracesRead(f, line3, UpdateAccess(f, line3, CheckBegin(line, s3)));
    var es := Namespaces(l, line).0;
    var d := f.patterns.classDecl(line2);
    if d.Some? && Counted(f, l, d.value, s2) {
      var kind := ClassKind(f, l, d.value);
      DeclareReads(s2, NewBlock(kind), false);
      ApplyConcat(FramesOf(s), es, [Declared(kind)]);
      ApplyConcat(FramesOf(s), es + [Declared(kind)], Tokens(line3));
    } else {
      ApplyConcat(FramesOf(s), es, Tokens(line3));
    }
  }

  // ----- the events of a run

  /** The events of the lines `ls`, in a run from `st`. */
  function Events(f: File, ls: seq<nat>, st: State): seq<Event>
    requires LineNumbers(f, ls)
    decreases |ls|
  {
    if ls == [] then []
    else
      var met := UpdatePreprocessor(st, DirectiveOf(f.elided[ls[0]])).stack;
      LineEvents(f, ls[0], met) + Events(f, ls[1..], Update(f, ls[0], st))
  }

  /** No `#else` has been passed in the innermost `d` conditionals. */
  ghost predicate Unseen(pp: seq<Saved>, d: nat) {
    d <= |pp| && forall k | |pp| - d <= k < |pp| :: !pp[k].seenElse
  }

  ghost predicate NoElse(f: File, ls: seq<nat>)
    requires LineNumbers(f, ls)
  {
    forall k | 0 <= k < |ls| :: DirectiveOf(f.elided[ls[k]]) != Else
  }

  lemma DirectiveKeepsStack(st: State, d: Directive, n: nat)
    requires Unseen(st.pp, n) && d != Else && (d == Endif ==> n > 0)
    ensures var st' := UpdatePreprocessor(st, d);
            && st'.stack == st.stack
            && Unseen(st'.pp, if d == If then n + 1 else if d == Endif then n - 1 else n)
  {
  }

  /** Lines without `#else`, with conditionals of their own. */
  lemma {:induction false} StraightRun(f: File, ls: seq<nat>, st: State, n: nat)
    requires LineNumbers(f, ls) && NoElse(f, ls) && Enclosed(f, ls, n) && Unseen(st.pp, n)
    ensures FramesOf(Run(f, ls, st).stack) == ApplyAll(FramesOf(st.stack), Events(f, ls, st))
    decreases |ls|
  {
    hide UpdatePreprocessor, UpdateBlocks, LineEvents, DirectiveOf, FramesOf, Apply, Unseen;
    if ls != [] {
      var d := DirectiveOf(f.elided[ls[0]]);
      DirectiveKeepsStack(st, d, n);
      var st1 := UpdatePreprocessor(st, d);
      LineReads(f, ls[0], st1.stack);
      assert NoElse(f, ls[1..]);
      StraightRun(f, ls[1..], Update(f, ls[0], st), if d == If then n + 1 else if d == Endif then n - 1 else n);
      ApplyConcat(FramesOf(st.stack), LineEvents(f, ls[0], st1.stack), Events(f, ls[1..], Update(f, ls[0], st)));
    }
  }

  lemma {:induction false} KeptHasNoElse(f: File, ls: seq<nat>, flags: Flags)
    requires LineNumbers(f, ls) && Enclosed(f, ls, |flags|)
    ensures NoElse(f, Kept(f, ls, flags))
    decreases |ls|
  {
    hide DirectiveOf;
    if ls != [] {
      var d := DirectiveOf(f.elided[ls[0]]);
      KeptHasNoElse(f, ls[1..], Track(flags, d));
    }
  }

  /** For any lines that open and close their own conditionals, from any state: the open blocks
      are decided by the events of the text outside of `#else` regions. */
  lemma BlocksFollowEvents(f: File, ls: seq<nat>, st: State)
    requires LineNumbers(f, ls) && Enclosed(f, ls, 0)
    ensures Run(f, ls, st).pp == st.pp
    ensures FramesOf(Run(f, ls, st).stack) == ApplyAll(FramesOf(st.stack), Events(f, Kept(f, ls, []), st))
  {
    hide Run, Kept, Enclosed, Events, NoElse, FramesOf, ApplyAll;
    StretchErased(f, ls, st);
    KeptEnclosed(f, ls, []);
    KeptHasNoElse(f, ls, []);
    StraightRun(f, Kept(f, ls, []), st, 0);
  }

  // ----- which blocks stay

  /** Above blocks that are there before, the events close only blocks of their own. */
  predicate Confined(own: Frames, es: seq<Event>)
    decreases |es|
  {
    es == [] || ((es[0] == Close ==> own != []) && Confined(Apply(own, es[0]), es[1..]))
  }

  lemma ApplyAbove(outer: Frames, own: Frames, e: Event)
    requires !Waits(outer) && (e == Close ==> own != [])
    ensures Apply(outer + own, e) == outer + Apply(own, e)
  {
    var fs := outer + own;
    if own != [] {
      assert fs[..|fs| - 1] == outer + own[..|own| - 1];
      assert fs[|fs| - 1] == own[|own| - 1];
    } else {
      assert fs == outer;
    }
  }

  lemma {:induction false} OuterStays(outer: Frames, own: Frames, es: seq<Event>)
    requires !Waits(outer) && Confined(own, es)
    ensures ApplyAll(outer + own, es) == outer + ApplyAll(own, es)
    decreases |es|
  {
    hide Apply, Waits;
    if es != [] {
      ApplyAbove(outer, own, es[0]);
      OuterStays(outer, Apply(own, es[0]), es[1..]);
    }
  }

  lemma {:induction false} ConfinedPrefix(own: Frames, es: seq<Event>, k: nat)
    requires Confined(own, es) && k <= |es|
    ensures Confined(own, es[..k])
    decreases |es|
  {
    hide Apply;
    if k > 0 {
      ConfinedPrefix(Apply(own, es[0]), es[1..], k - 1);
      assert es[..k][1..] == es[1..][..k - 1];
    }
  }

  /** If the events are not confined, the innermost block from before is closed at some point. */
  lemma {:induction false} LosesOuter(outer: Frames, own: Frames, es: seq<Event>) returns (k: nat)
    requires outer != [] && !Waits(outer) && !Confined(own, es)
    ensures k <= |es| && !(outer <= ApplyAll(outer + own, es[..k]))
    decreases |es|
  {
    hide Apply, Waits;
    if es[0] == Close && own == [] {
      k := 1;
      ClosesOuter(outer);
      assert outer + own == outer && es[..1] == [Close] && es[..1][1..] == [];
      assert ApplyAll(outer, [Close]) == Apply(outer, Close);
    } else {
      ApplyAbove(outer, own, es[0]);
      k := LosesOuter(outer, Apply(own, es[0]), es[1..]);
      assert es[..k + 1][1..] == es[1..][..k];
      assert ApplyAll(outer + own, es[..k + 1]) == ApplyAll(outer + Apply(own, es[0]), es[1..][..k]);
      k := k + 1;
    }
  }

  lemma ClosesOuter(outer: Frames)
    requires outer != []
    ensures |Apply(outer, Close)| < |outer|
  {
  }

  /** Blocks that are there before, the innermost of them opened, stay throughout exactly when
      the events close only blocks of their own. */
  lemma StaysIffConfined(outer: Frames, es: seq<Event>)
    requires outer != [] && !Waits(outer)
    ensures Confined([], es) <==> forall k | 0 <= k <= |es| :: outer <= ApplyAll(outer, es[..k])
  {
    assert outer + [] == outer;
    hide Apply, Waits, ApplyAll, Confined;
    if Confined([], es) {
      forall k | 0 <= k <= |es|
        ensures outer <= ApplyAll(outer, es[..k])
      {
        ConfinedPrefix([], es, k);
        OuterStays(outer, [], es[..k]);
      }
    } else {
      var k := LosesOuter(outer, [], es);
    }
  }

  // ----- how many blocks are open

  function OpenIn(fs: Frames): nat {
    if fs == [] then 0 else OpenIn(fs[..|fs| - 1]) + (if fs[|fs| - 1].isOpen then 1 else 0)
  }

  function Opens(es: seq<Event>): nat {
    if es == [] then 0 else (if es[0].Open? then 1 else 0) + Opens(es[1..])
  }

  function Closes(es: seq<Event>): nat {
    if es == [] then 0 else (if es[0] == Close then 1 else 0) + Closes(es[1..])
  }

  /** How many closing braces meet no block, or one that is not opened. */
  function Misses(fs: Frames, es: seq<Event>): nat
    decreases |es|
  {
    if es == [] then 0
    else (if es[0] == Close && (fs == [] || Waits(fs)) then 1 else 0) + Misses(Apply(fs, es[0]), es[1..])
  }

  lemma OpenInPush(fs: Frames, x: Frame)
    ensures OpenIn(fs + [x]) == OpenIn(fs) + (if x.isOpen then 1 else 0)
  {
    assert (fs + [x])[..|fs|] == fs;
  }

  lemma OpenInStep(fs: Frames, e: Event)
    ensures OpenIn(Apply(fs, e)) == OpenIn(fs) + (if e.Open? then 1 else 0) - (if e == Close && fs != [] && !Waits(fs) then 1 else 0)
  {
    var front := if fs == [] then [] else fs[..|fs| - 1];
    if fs != [] {
      assert fs == front + [fs[|fs| - 1]];
      OpenInPush(front, fs[|fs| - 1]);
      OpenInPush(front, Frame(fs[|fs| - 1].kind, true));
    }
    match e
    case Declared(kind) => OpenInPush(fs, Frame(kind, false));
    case Open(external) => OpenInPush(fs, Frame(if external then ExternC else Brace, true));
    case End =>
    case Close =>
  }

  /** The opened blocks are the opening braces less the closing ones, but for closing braces
      that miss; so the count is right exactly when none misses. */
  lemma {:induction false} OpenedExactly(fs: Frames, es: seq<Event>)
    ensures OpenIn(ApplyAll(fs, es)) == OpenIn(fs) + Opens(es) - Closes(es) + Misses(fs, es)
    decreases |es|
  {
    hide Apply, Waits, OpenIn;
    if es != [] {
      OpenInStep(fs, es[0]);
      OpenedExactly(Apply(fs, es[0]), es[1..]);
    }
  }

  /** On a line without declarations these are the braces of its text. */
  lemma {:induction false} TokensAreBraces(line: string)
    requires '\n' !in line
    ensures Opens(Tokens(line)) - Closes(Tokens(line)) == Depth.Net(line)
    decreases |line|
  {
    hide BraceToken, Depth.Net, ExternBrace;
    if BraceToken(line).None? {
      Depth.NoToken(line);
    } else {
      Depth.TokenSplit(line);
      var (token, rest) := BraceToken(line).value;
      var head :| line == head + ([token] + rest) && Depth.Net(head) == 0;
      Depth.NetConcat(head, [token] + rest);
      Depth.NetConcat([token], rest);
      Depth.NetOfToken(token);
      TokensAreBraces(rest);
      assert Tokens(line)[1..] == Tokens(rest);
    }
  }

  lemma {:induction false} CountEvents(a: seq<Event>, b: seq<Event>)
    ensures Opens(a + b) == Opens(a) + Opens(b) && Closes(a + b) == Closes(a) + Closes(b)
    decreases |a|
  {
    if a == [] {
      assert a + b == b;
    } else {
      assert (a + b)[1..] == a[1..] + b;
      CountEvents(a[1..], b);
    }
  }

  /** No namespace or class is declared on these lines. */
  predicate Undeclared(f: File, ls: seq<nat>)
    requires LineNumbers(f, ls)
  {
    forall k | 0 <= k < |ls| ::
      var line := f.elided[ls[k]];
      NamespaceDecl(line) == None && f.patterns.classDecl(line) == None && '\n' !in line
  }

  lemma {:induction false} EventsAreBraces(f: File, ls: seq<nat>, st: State)
    requires LineNumbers(f, ls) && Undeclared(f, ls)
    ensures Opens(Events(f, ls, st)) - Closes(Events(f, ls, st)) == Depth.Net(Depth.Text(f, ls))
    decreases |ls|
  {
    hide Update, UpdatePreprocessor, DirectiveOf, NamespaceDecl, Depth.Net, ConsumeNamespaces, CountParentheses;
    if ls == [] {
      Depth.NoBraces("");
    } else {
      var line := f.elided[ls[0]];
      var met := UpdatePreprocessor(st, DirectiveOf(line)).stack;
      assert LineEvents(f, ls[0], met) == [] + Tokens(line) == Tokens(line);
      TokensAreBraces(line);
      EventsAreBraces(f, ls[1..], Update(f, ls[0], st));
      CountEvents(Tokens(line), Events(f, ls[1..], Update(f, ls[0], st)));
      Depth.NetConcat(line, Depth.Text(f, ls[1..]));
    }
  }

  /** Any lines that open and close their own conditionals: how many blocks are open at the
      end, and for lines without declarations also in terms of the braces of the text. */
  lemma OpenBlocks(f: File, ls: seq<nat>, st: State)
    requires LineNumbers(f, ls) && Enclosed(f, ls, 0)
    ensures var kept := Kept(f, ls, []);
            var es := Events(f, kept, st);
            var before, after := FramesOf(st.stack), FramesOf(Run(f, ls, st).stack);
            && OpenIn(after) == OpenIn(before) + Opens(es) - Closes(es) + Misses(before, es)
            && (Undeclared(f, kept) ==> OpenIn(after) == OpenIn(before) + Depth.Net(Depth.Text(f, kept)) + Misses(before, es))
  {
    hide Run, Kept, Enclosed, Events, ApplyAll, OpenIn, Misses, Undeclared, Depth.Text, Depth.Net, Opens, Closes;
    BlocksFollowEvents(f, ls, st);
    var kept := Kept(f, ls, []);
    OpenedExactly(FramesOf(st.stack), Events(f, kept, st));
    if Undeclared(f, kept) {
      EventsAreBraces(f, kept, st);
    }
  }

  // ----- text that leaves the blocks as they were

  predicate Neutral(es: seq<Event>) {
    Confined([], es) && ApplyAll([], es) == []
  }

  lemma NeutralKeeps(outer: Frames, es: seq<Event>)
    requires !Waits(outer) && Neutral(es)
    ensures ApplyAll(outer, es) == outer
  {
    hide Apply, Waits, ApplyAll, Confined;
    OuterStays(outer, [], es);
    assert outer + [] == outer;
  }

  lemma {:induction false} ConfinedConcat(own: Frames, a: seq<Event>, b: seq<Event>)
    ensures Confined(own, a + b) <==> Confined(own, a) && Confined(ApplyAll(own, a), b)
    decreases |a|
  {
    hide Apply;
    if a == [] {
      assert a + b == b;
    } else {
      assert (a + b)[1..] == a[1..] + b;
      ConfinedConcat(Apply(own, a[0]), a[1..], b);
    }
  }

  lemma {:induction false} ConfinedAbove(outer: Frames, own: Frames, es: seq<Event>)
    requires !Waits(outer) && Confined(own, es)
    ensures Confined(outer + own, es)
    decreases |es|
  {
    hide Apply, Waits;
    if es != [] {
      ApplyAbove(outer, own, es[0]);
      ConfinedAbove(outer, Apply(own, es[0]), es[1..]);
    }
  }

  lemma NeutralConcat(a: seq<Event>, b: seq<Event>)
    requires Neutral(a) && Neutral(b)
    ensures Neutral(a + b)
  {
    hide ApplyAll, Confined;
    ApplyConcat([], a, b);
    ConfinedConcat([], a, b);
  }

  /** From its brace on a declared block is in its place. */
  lemma DeclaredStays(outer: Frames, kind: Kind, external: bool, body: seq<Event>)
    requires Confined([], body)
    ensures ApplyAll(outer, [Declared(kind), Open(external)] + body) == outer + [Frame(kind, true)] + ApplyAll([], body)
  {
    var open := outer + [Frame(kind, true)];
    OpensDeclared(outer, kind, external);
    hide Apply, ApplyAll, Confined;
    ApplyConcat(outer, [Declared(kind), Open(external)], body);
    OuterStays(open, [], body);
    assert open + [] == open;
  }

  lemma OpensDeclared(outer: Frames, kind: Kind, external: bool)
    ensures ApplyAll(outer, [Declared(kind), Open(external)]) == outer + [Frame(kind, true)]
    ensures Confined(outer, [Declared(kind), Open(external)])
  {
    var es := [Declared(kind), Open(external)];
    var waiting := outer + [Frame(kind, false)];
    assert es[1..] == [Open(external)] && es[1..][1..] == [];
    assert Apply(outer, es[0]) == waiting && waiting[..|waiting| - 1] == outer;
    assert ApplyAll(waiting, [Open(external)]) == Apply(waiting, Open(external)) == outer + [Frame(kind, true)];
  }

  lemma ClosesBlock(outer: Frames, x: Frame)
    ensures ApplyAll(outer + [x], [Close]) == outer && Confined(outer + [x], [Close])
  {
    var fs := outer + [x];
    assert [Close][1..] == [] && fs[..|fs| - 1] == outer;
  }

  /** A block whose body is neutral is neutral, declared or not; so is a declaration that is
      dropped, and a stray end. */
  lemma NeutralBlock(kind: Kind, external: bool, body: seq<Event>)
    requires Neutral(body)
    ensures Neutral([Declared(kind), Open(external)] + body + [Close])
    ensures Neutral([Open(external)] + body + [Close])
    ensures Neutral([Declared(kind), End]) && Neutral([End])
  {
    OpensDeclared([], kind, external);
    WrapNeutral([Declared(kind), Open(external)], Frame(kind, true), body);
    OpensBlock(external);
    WrapNeutral([Open(external)], Frame(if external then ExternC else Brace, true), body);
    var es := [Declared(kind), End];
    assert es[1..] == [End] && [End][1..] == [];
    assert Apply([], es[0]) == [Frame(kind, false)] && Apply([Frame(kind, false)], End) == [];
  }

  lemma OpensBlock(external: bool)
    ensures ApplyAll([], [Open(external)]) == [Frame(if external then ExternC else Brace, true)]
    ensures Confined([], [Open(external)])
  {
    assert [Open(external)][1..] == [];
  }

  lemma WrapNeutral(opening: seq<Event>, x: Frame, body: seq<Event>)
    requires Confined([], opening) && ApplyAll([], opening) == [x] && x.isOpen && Neutral(body)
    ensures Neutral(opening + body + [Close])
  {
    ClosesBlock([], x);
    assert [] + [x] == [x];
    hide Apply, ApplyAll, Confined;
    ApplyConcat([], opening, body);
    ConfinedConcat([], opening, body);
    NeutralKeeps([x], body);
    ConfinedAbove([x], [], body);
    assert [x] + [] == [x];
    ApplyConcat([], opening + body, [Close]);
    ConfinedConcat([], opening + body, [Close]);
  }

  /** Any lines, with any conditionals of their own, whose text outside of `#else` regions is
      made of such pieces leave every block in its place. */
  lemma NeutralText(f: File, ls: seq<nat>, st: State)
    requires LineNumbers(f, ls) && Enclosed(f, ls, 0) && SeenOpenBrace(st.stack)
    requires Neutral(Events(f, Kept(f, ls, []), st))
    ensures Run(f, ls, st).pp == st.pp && FramesOf(Run(f, ls, st).stack) == FramesOf(st.stack)
  {
    hide Run, Kept, Enclosed, Events, Neutral, ApplyAll;
    BlocksFollowEvents(f, ls, st);
    assert !Waits(FramesOf(st.stack));
    NeutralKeeps(FramesOf(st.stack), Events(f, Kept(f, ls, []), st));
  }
}
