/** The nesting tracker as the object program it is: blocks are mutable objects, the live
    stack and the stacks put aside at `#if` and `#else` refer to them, and Update changes
    them in place.  Every method is proved to do to the values what the functions of
    module Nesting say, so no change to the live stack shows in a stack put aside. */
module NestingHeap {
  import opened Chars
  import N = Nesting
  import opened TemplateArgs
  import B = BranchErasure

  class BlockInfo {
    const kind: N.Kind
    var seenOpenBrace: bool
    var openParentheses: int
    var asm: N.Asm
    var access: string
    var isDerived: bool

    constructor (kind: N.Kind)
      ensures View() == N.NewBlock(kind)
    {
      this.kind := kind;
      var b := N.NewBlock(kind);
      seenOpenBrace, openParentheses, asm, access, isDerived :=
        b.seenOpenBrace, b.openParentheses, b.asm, b.access, b.isDerived;
    }

    /** Copies another block, as `copy.deepcopy` does. */
    constructor Copy(b: BlockInfo)
      ensures View() == b.View()
    {
      kind := b.kind;
      seenOpenBrace, openParentheses, asm, access, isDerived :=
        b.seenOpenBrace, b.openParentheses, b.asm, b.access, b.isDerived;
    }

    function View(): N.Block
      reads this
    {
      N.Block(kind, seenOpenBrace, openParentheses, asm, access, isDerived)
    }

    method Parenthesize(f: N.File, line: string)
      modifies this`openParentheses, this`asm
      ensures View() == N.Parenthesize(f, line, old(View()))
    {
      var depthChange := Count(line, '(') - Count(line, ')');
      openParentheses := openParentheses + depthChange;
      if asm == N.NoAsm || asm == N.EndAsm {
        if depthChange != 0 && openParentheses == 1 && f.patterns.asm(line) {
          asm := N.InsideAsm;
        } else {
          asm := N.NoAsm;
        }
      } else if asm == N.InsideAsm && openParentheses == 0 {
        asm := N.EndAsm;
      }
    }
  }

  /** The block has been brought up to date with the parentheses of a line. */
  twostate predicate Parenthesized(f: N.File, line: string, b: BlockInfo)
    reads b
  {
    var after := N.Parenthesize(f, line, old(b.View()));
    b.openParentheses == after.openParentheses && b.asm == after.asm
  }

  type Objects = seq<BlockInfo>

  ghost function Items(bs: Objects): set<BlockInfo> {
    set b | b in bs
  }

  function Init<T>(s: seq<T>): seq<T>
    requires s != []
  {
    s[..|s| - 1]
  }

  function Last<T>(s: seq<T>): T
    requires s != []
  {
    s[|s| - 1]
  }

  ghost function Views(bs: Objects): (r: N.Stack)
    reads Items(bs)
    ensures |r| == |bs|
  {
    if bs == [] then [] else Views(Init(bs)) + [Last(bs).View()]
  }

  /** No object occurs twice. */
  ghost predicate Distinct(bs: Objects) {
    bs == [] || (Distinct(Init(bs)) && Last(bs) !in Items(Init(bs)))
  }

  lemma ItemsPush(bs: Objects, b: BlockInfo)
    ensures Items(bs + [b]) == Items(bs) + {b}
  {
  }

  /** A nonempty stack is its last object on top of the others. */
  lemma TopOf(bs: Objects)
    requires bs != []
    ensures Views(bs) == Views(Init(bs)) + [Last(bs).View()]
    ensures Items(bs) == Items(Init(bs)) + {Last(bs)}
    ensures Distinct(bs) <==> Distinct(Init(bs)) && Last(bs) !in Items(Init(bs))
  {
    hide Items;
    ItemsPush(Init(bs), Last(bs));
    assert bs == Init(bs) + [Last(bs)];
  }

  lemma Push(bs: Objects, b: BlockInfo)
    ensures Init(bs + [b]) == bs && Last(bs + [b]) == b
    ensures Views(bs + [b]) == Views(bs) + [b.View()]
    ensures Items(bs + [b]) == Items(bs) + {b}
    ensures Distinct(bs + [b]) <==> Distinct(bs) && b !in Items(bs)
  {
    hide Items;
    assert Init(bs + [b]) == bs;
    TopOf(bs + [b]);
  }

  method DeepCopy(bs: Objects) returns (cs: Objects)
    ensures Views(cs) == Views(bs) && Distinct(cs)
    ensures fresh(Items(cs))
    decreases |bs|
  {
    if bs == [] {
      return [];
    }
    hide Items, Views, Distinct;
    TopOf(bs);
    var front := DeepCopy(Init(bs));
    var c := new BlockInfo.Copy(Last(bs));
    Push(front, c);
    cs := front + [c];
  }

  class PreprocessorInfo {
    const stackBeforeIf: Objects
    var stackBeforeElse: Objects
    var seenElse: bool

    constructor (stackBeforeIf: Objects)
      ensures this.stackBeforeIf == stackBeforeIf && stackBeforeElse == [] && !seenElse
    {
      this.stackBeforeIf := stackBeforeIf;
      stackBeforeElse, seenElse := [], false;
    }

    ghost function Blocks(): set<BlockInfo>
      reads this
    {
      Items(stackBeforeIf) + Items(stackBeforeElse)
    }

    ghost function View(): N.Saved
      reads this, Blocks()
    {
      N.Saved(Views(stackBeforeIf), Views(stackBeforeElse), seenElse)
    }
  }

  type Infos = seq<PreprocessorInfo>

  ghost function Entries(pp: Infos): set<PreprocessorInfo> {
    set info | info in pp
  }

  /** All blocks put aside. */
  ghost function Saved(pp: Infos): set<BlockInfo>
    reads pp
  {
    if pp == [] then {} else Saved(Init(pp)) + Last(pp).Blocks()
  }

  lemma SavedNone()
    ensures Saved([]) == {}
  {
  }

  lemma SavedAllocated(pp: Infos)
    ensures allocated(Saved(pp))
  {
    if pp != [] {
      SavedAllocated(Init(pp));
    }
  }

  /** No block is put aside twice. */
  ghost predicate Separate(pp: Infos)
    reads pp
  {
    pp == [] ||
    var top := Last(pp);
    && Separate(Init(pp))
    && top !in Init(pp)
    && top.Blocks() !! Saved(Init(pp))
    && Items(top.stackBeforeIf) !! Items(top.stackBeforeElse)
    && Distinct(top.stackBeforeElse)
  }

  ghost function SavedViews(pp: Infos): (r: seq<N.Saved>)
    reads pp, Saved(pp)
    ensures |r| == |pp|
  {
    if pp == [] then [] else SavedViews(Init(pp)) + [Last(pp).View()]
  }

  /** A nonempty stack of directives is its last entry on top of the others. */
  lemma TopInfo(pp: Infos)
    requires pp != []
    ensures var top := Last(pp);
            && Saved(pp) == Saved(Init(pp)) + Items(top.stackBeforeIf) + Items(top.stackBeforeElse)
            && SavedViews(pp) == SavedViews(Init(pp)) + [top.View()]
            && (Separate(pp) <==>
                && Separate(Init(pp))
                && top !in Init(pp)
                && (Items(top.stackBeforeIf) + Items(top.stackBeforeElse)) !! Saved(Init(pp))
                && Items(top.stackBeforeIf) !! Items(top.stackBeforeElse)
                && Distinct(top.stackBeforeElse))
  {
  }

  lemma PushInfo(pp: Infos, info: PreprocessorInfo)
    requires info.stackBeforeElse == []
    ensures Init(pp + [info]) == pp && Last(pp + [info]) == info
    ensures Saved(pp + [info]) == Saved(pp) + Items(info.stackBeforeIf)
    ensures SavedViews(pp + [info]) == SavedViews(pp) + [info.View()]
    ensures info.View().beforeElse == []
    ensures Separate(pp) && info !in pp && Items(info.stackBeforeIf) !! Saved(pp) ==> Separate(pp + [info])
  {
    assert Init(pp + [info]) == pp;
    TopInfo(pp + [info]);
    assert Items([]) == {};
  }

  class NestingState {
    var stack: Objects
    var previousStackTop: BlockInfo?
    var ppStack: Infos

    constructor ()
      ensures Valid() && View() == N.State([], []) && previousStackTop == null
    {
      stack, previousStackTop, ppStack := [], null, [];
    }

    /** No block is shared between the live stack and a stack put aside, or between two
        stacks put aside. */
    ghost predicate Valid()
      reads this`stack, this`ppStack, ppStack
    {
      Distinct(stack) && Separate(ppStack) && Items(stack) !! Saved(ppStack)
    }

    ghost function View(): N.State
      reads this`stack, this`ppStack, ppStack, Items(stack), Saved(ppStack)
    {
      N.State(Views(stack), SavedViews(ppStack))
    }

    // ----- directives

    method UpdatePreprocessor(d: N.Directive)
      requires Valid()
      modifies this`stack, this`ppStack, Entries(ppStack)
      ensures Valid()
      ensures View() == N.UpdatePreprocessor(old(View()), d)
      ensures if N.Replaces(old(View()), d) then Items(stack) !! old(Items(stack)) else stack == old(stack)
      ensures fresh(Items(stack) - old(Items(stack)) - old(Saved(ppStack)))
      ensures forall b | b in Saved(ppStack) :: b in old(Saved(ppStack)) || fresh(b)
      ensures fresh(Entries(ppStack) - old(Entries(ppStack)))
    {
      hide Saved, Separate, SavedViews, Views, Distinct, Items;
      match d
      case If =>
        OpenConditional();
      case Else =>
        if ppStack != [] {
          TurnToElse();
        }
      case Endif =>
        if ppStack != [] {
          CloseConditional();
        }
      case Other =>
    }

    method OpenConditional()
      requires Valid()
      modifies this`ppStack
      ensures Valid()
      ensures View() == N.UpdatePreprocessor(old(View()), N.If)
      ensures forall b | b in Saved(ppStack) :: b in old(Saved(ppStack)) || fresh(b)
      ensures fresh(Entries(ppStack) - old(Entries(ppStack)))
    {
      hide Saved, Separate, SavedViews, Views, Distinct;
      SavedAllocated(ppStack);
      var copy := DeepCopy(stack);
      var info := new PreprocessorInfo(copy);
      PushInfo(ppStack, info);
      ppStack := ppStack + [info];
    }

    method TurnToElse()
      requires Valid() && ppStack != []
      modifies this`stack, Entries(ppStack)
      ensures Valid() && ppStack == old(ppStack)
      ensures View() == N.UpdatePreprocessor(old(View()), N.Else)
      ensures fresh(Items(stack)) && Items(stack) !! old(Items(stack))
      ensures forall b | b in Saved(ppStack) :: b in old(Saved(ppStack)) || fresh(b)
    {
      hide Saved, Separate, SavedViews, Views, Distinct;
      TopInfo(ppStack);
      var top := Last(ppStack);
      if !top.seenElse {
        PutAside(top);
      }
      ReturnToIf(top);
    }

    method PutAside(top: PreprocessorInfo)
      requires Valid() && ppStack != [] && top == Last(ppStack)
      modifies top
      ensures Valid()
      ensures Views(stack) == old(Views(stack))
      ensures SavedViews(ppStack) ==
              old(SavedViews(Init(ppStack))) + [old(top.View()).(seenElse := true, beforeElse := old(Views(stack)))]
      ensures top.View().beforeIf == old(top.View()).beforeIf
      ensures forall b | b in Saved(ppStack) :: b in old(Saved(ppStack)) || fresh(b)
    {
      hide Saved, Separate, SavedViews, Views, Distinct;
      SavedAllocated(ppStack);
      TopInfo(ppStack);
      top.seenElse := true;
      var copy := DeepCopy(stack);
      top.stackBeforeElse := copy;
      TopInfo(ppStack);
    }

    method ReturnToIf(top: PreprocessorInfo)
      requires Valid() && ppStack != [] && top == Last(ppStack)
      modifies this`stack
      ensures Valid()
      ensures Views(stack) == top.View().beforeIf
      ensures SavedViews(ppStack) == old(SavedViews(ppStack)) && Saved(ppStack) == old(Saved(ppStack))
      ensures fresh(Items(stack))
    {
      hide Saved, Separate, SavedViews, Views, Distinct;
      SavedAllocated(ppStack);
      TopInfo(ppStack);
      stack := DeepCopy(top.stackBeforeIf);
    }

    method CloseConditional()
      requires Valid() && ppStack != []
      modifies this`stack, this`ppStack
      ensures Valid()
      ensures View() == N.UpdatePreprocessor(old(View()), N.Endif)
      ensures if N.Replaces(old(View()), N.Endif) then Items(stack) !! old(Items(stack)) else stack == old(stack)
      ensures Items(stack) <= old(Items(stack)) + old(Saved(ppStack))
      ensures Saved(ppStack) <= old(Saved(ppStack))
      ensures ppStack <= old(ppStack)
    {
      hide Saved, Separate, SavedViews, Views, Distinct;
      TopInfo(ppStack);
      var top := Last(ppStack);
      if top.seenElse {
        stack := top.stackBeforeElse;
      }
      ppStack := Init(ppStack);
    }

    // ----- the stack of blocks

    predicate SeenOpenBrace()
      reads this, Items(stack)
    {
      stack == [] || Last(stack).seenOpenBrace
    }

    method PushBlock(kind: N.Kind) returns (b: BlockInfo)
      requires Distinct(stack)
      modifies this`stack
      ensures Distinct(stack) && stack == old(stack) + [b]
      ensures b.View() == N.NewBlock(kind)
      ensures Views(stack) == old(Views(stack)) + [b.View()]
      ensures fresh(b) && Items(stack) == old(Items(stack)) + {b}
    {
      hide Views, Distinct;
      b := new BlockInfo(kind);
      Push(stack, b);
      stack := stack + [b];
    }

    method CountParentheses(f: N.File, line: string)
      requires Distinct(stack)
      modifies Items(stack)`openParentheses, Items(stack)`asm
      ensures Views(stack) == N.CountParentheses(f, line, old(Views(stack)))
      ensures stack != [] ==> Last(stack).View() == N.Parenthesize(f, line, old(Last(stack).View()))
    {
      if stack != [] {
        Last(stack).Parenthesize(f, line);
      }
    }

    method OpenNamespace(linenum: nat, name: string, brace: bool)
      requires Distinct(stack)
      modifies this`stack
      ensures Distinct(stack)
      ensures Views(stack) == old(Views(stack)) + [N.NewBlock(N.Namespace(name, linenum)).(seenOpenBrace := brace)]
      ensures fresh(Items(stack) - old(Items(stack)))
    {
      hide Views, Distinct;
      var block := PushBlock(N.Namespace(name, linenum));
      if brace {
        block.seenOpenBrace := true;
      }
      Push(old(stack), block);
    }

    method ConsumeNamespaces(linenum: nat, line0: string) returns (line: string)
      requires Distinct(stack)
      modifies this`stack
      ensures Distinct(stack)
      ensures (line, Views(stack)) == N.ConsumeNamespaces(linenum, line0, old(Views(stack)))
      ensures fresh(Items(stack) - old(Items(stack)))
    {
      line := line0;
      while true
        invariant Distinct(stack)
        invariant N.ConsumeNamespaces(linenum, line0, old(Views(stack))) == N.ConsumeNamespaces(linenum, line, Views(stack))
        invariant fresh(Items(stack) - old(Items(stack)))
        decreases |line|
      {
        var m := N.NamespaceDecl(line);
        if m.None? {
          break;
        }
        var brace := Find(m.value.1, "{", 0);
        OpenNamespace(linenum, m.value.0, brace != -1);
        line := if brace != -1 then m.value.1[brace + 1..] else m.value.1;
      }
    }

    method ConsumeClass(f: N.File, linenum: nat, line0: string) returns (line: string)
      requires Distinct(stack) && linenum < |f.raw|
      modifies this`stack
      ensures Distinct(stack)
      ensures (line, Views(stack)) == N.ConsumeClass(f, linenum, line0, old(Views(stack)))
      ensures fresh(Items(stack) - old(Items(stack)))
    {
      line := line0;
      var decl := f.patterns.classDecl(line);
      if decl.Some? && (stack == [] || Last(stack).openParentheses == 0) {
        var d := decl.value;
        var inTemplate := InTemplateArgumentList(f.elided, linenum, d.headLength);
        if !inTemplate {
          var lastLine := FindLastLine(f.elided, linenum);
          var _ := PushBlock(N.Class(d.name, d.isStruct, linenum, N.IndentLevel(f.raw[linenum]), lastLine));
          line := d.rest;
        }
      }
    }

    method CheckBegin(head: string)
      requires Distinct(stack)
      modifies Items(stack)`isDerived
      ensures Views(stack) == N.CheckBegin(head, old(Views(stack)))
    {
      if !SeenOpenBrace() {
        if Last(stack).kind.Class? && N.BareColon(head) {
          Last(stack).isDerived := true;
        }
      }
    }

    method UpdateAccess(f: N.File, line: string)
      requires Distinct(stack)
      modifies Items(stack)`access
      ensures Views(stack) == N.UpdateAccess(f, line, old(Views(stack)))
    {
      if stack != [] && Last(stack).kind.Class? {
        var m := f.patterns.access(line);
        if m.Some? {
          Last(stack).access := m.value;
        }
      }
    }

    method ConsumeBraces(f: N.File, line0: string)
      requires Distinct(stack)
      modifies this`stack, Items(stack)`seenOpenBrace
      ensures Distinct(stack)
      ensures Views(stack) == N.ConsumeBraces(f, line0, old(Views(stack)))
      ensures fresh(Items(stack) - old(Items(stack)))
    {
      var line := line0;
      while true
        invariant Distinct(stack)
        invariant N.ConsumeBraces(f, line0, old(Views(stack))) == N.ConsumeBraces(f, line, Views(stack))
        invariant fresh(Items(stack) - old(Items(stack)))
        decreases |line|
      {
        var m := N.BraceToken(line);
        if m.None? {
          break;
        }
        ConsumeToken(f, m.value.0, line);
        line := m.value.1;
      }
    }

    method ConsumeToken(f: N.File, token: char, line: string)
      requires Distinct(stack)
      modifies this`stack, Items(stack)`seenOpenBrace
      ensures Distinct(stack)
      ensures Views(stack) == N.ConsumeToken(f, token, line, old(Views(stack)))
      ensures fresh(Items(stack) - old(Items(stack)))
    {
      hide Views, Distinct, N.ExternBrace;
      if stack != [] {
        TopOf(stack);
      }
      if token == '{' {
        if !SeenOpenBrace() {
          Last(stack).seenOpenBrace := true;
          TopOf(stack);
        } else if N.ExternBrace(line) {
          var _ := PushBlock(N.ExternC);
        } else {
          OpenBrace(f.patterns.asm(line));
        }
      } else if token == ';' || token == ')' {
        if !SeenOpenBrace() {
          stack := Init(stack);
        }
      } else {
        if stack != [] {
          stack := Init(stack);
        }
      }
    }

    method OpenBrace(asm: bool)
      requires Distinct(stack)
      modifies this`stack
      ensures Distinct(stack)
      ensures Views(stack) == old(Views(stack)) + [N.NewBlock(N.Brace).(asm := if asm then N.BlockAsm else N.NoAsm)]
      ensures fresh(Items(stack) - old(Items(stack)))
    {
      hide Views, Distinct;
      var block := PushBlock(N.Brace);
      if asm {
        block.asm := N.BlockAsm;
      }
      Push(old(stack), block);
    }

    method Declare(f: N.File, linenum: nat) returns (line: string)
      requires Distinct(stack) && linenum < |f.elided| && linenum < |f.raw|
      modifies this`stack, Items(stack)`openParentheses, Items(stack)`asm
      ensures Distinct(stack)
      ensures (line, Views(stack)) == N.Declare(f, linenum, old(Views(stack)))
      ensures old(stack) != [] ==> Last(old(stack)).View() == N.Parenthesize(f, f.elided[linenum], old(Last(stack).View()))
      ensures fresh(Items(stack) - old(Items(stack)))
    {
      hide N.CountParentheses, N.ConsumeNamespaces, N.ConsumeClass, Views, Distinct;
      CountParentheses(f, f.elided[linenum]);
      line := ConsumeNamespaces(linenum, f.elided[linenum]);
      line := ConsumeClass(f, linenum, line);
    }

    method Consume(f: N.File, head: string, line: string)
      requires Distinct(stack)
      modifies this`stack, Items(stack)`isDerived, Items(stack)`access, Items(stack)`seenOpenBrace
      ensures Distinct(stack)
      ensures Views(stack) == N.Consume(f, head, line, old(Views(stack)))
      ensures fresh(Items(stack) - old(Items(stack)))
    {
      hide N.CheckBegin, N.UpdateAccess, N.ConsumeBraces, Views, Distinct;
      CheckBegin(head);
      UpdateAccess(f, line);
      ConsumeBraces(f, line);
    }

    method DeclareAndConsume(f: N.File, linenum: nat)
      requires Distinct(stack) && linenum < |f.elided| && linenum < |f.raw|
      modifies this`stack, Items(stack)
      ensures Distinct(stack)
      ensures Views(stack) == N.UpdateBlocks(f, linenum, old(Views(stack)))
      ensures fresh(Items(stack) - old(Items(stack)))
      ensures old(stack) != [] ==> Parenthesized(f, f.elided[linenum], Last(old(stack)))
    {
      hide N.Declare, N.Consume, Views, Distinct;
      var line := Declare(f, linenum);
      Consume(f, f.elided[linenum], line);
    }

    /** All changes in place happen to live blocks, so the stacks put aside keep their
        values. */
    method UpdateBlocks(f: N.File, linenum: nat)
      requires Valid() && linenum < |f.elided| && linenum < |f.raw|
      modifies this`stack, Items(stack)
      ensures Valid()
      ensures Views(stack) == N.UpdateBlocks(f, linenum, old(Views(stack)))
      ensures SavedViews(ppStack) == old(SavedViews(ppStack)) && Saved(ppStack) == old(Saved(ppStack))
      ensures fresh(Items(stack) - old(Items(stack)))
      ensures old(stack) != [] ==> Parenthesized(f, f.elided[linenum], Last(old(stack)))
    {
      hide N.UpdateBlocks, Saved, Separate, SavedViews, Views, Distinct;
      SavedAllocated(ppStack);
      DeclareAndConsume(f, linenum);
    }

    /** One line: the object program does what the function on values says.  In particular
        every stack put aside has the value it was given, whatever was done in place to
        the live blocks in the meantime.  The block kept as the previous top is the live
        object, not a copy of it: unless a directive replaces the stack, the line changes
        its parentheses, and they are as before exactly when the line has as many of one
        kind as of the other. */
    method Update(f: N.File, linenum: nat)
      requires Valid() && linenum < |f.elided| && linenum < |f.raw|
      modifies this, Entries(ppStack), Items(stack), Saved(ppStack)
      ensures Valid()
      ensures View() == N.Update(f, linenum, old(View()))
      ensures previousStackTop == if old(stack) == [] then null else Last(old(stack))
      ensures old(stack) != [] ==>
                var line, top := f.elided[linenum], Last(old(stack));
                var replaced := N.Replaces(old(View()), N.DirectiveOf(line));
                && (replaced ==> top.View() == old(Last(stack).View()))
                && (!replaced ==> Parenthesized(f, line, top))
                && (top.openParentheses == old(Last(stack).openParentheses) <==>
                    replaced || Count(line, '(') == Count(line, ')'))
      ensures fresh(Items(stack) - old(Items(stack)) - old(Saved(ppStack)))
      ensures forall b | b in Saved(ppStack) :: b in old(Saved(ppStack)) || fresh(b)
      ensures fresh(Entries(ppStack) - old(Entries(ppStack)))
    {
      hide N.UpdateBlocks, N.UpdatePreprocessor, N.DirectiveOf, N.Replaces, Count, Saved, Separate, SavedViews, Views, Distinct;
      if stack != [] {
        previousStackTop := Last(stack);
      } else {
        previousStackTop := null;
      }
      assert Saved(ppStack) == old(Saved(ppStack));
      UpdatePreprocessor(N.DirectiveOf(f.elided[linenum]));
      assert forall b | b in Saved(ppStack) :: b in old(Saved(ppStack)) || fresh(b);
      UpdateBlocks(f, linenum);
    }
  }

  /** Opening braces less closing braces on the lines from `i` up to `j`. */
  function Balance(elided: seq<string>, i: nat, j: nat): int
    requires i <= j <= |elided|
  {
    if i == j then 0 else Balance(elided, i, j - 1) + Count(elided[j - 1], '{') - Count(elided[j - 1], '}')
  }

  /** The loop of the constructor of a class block that looks for its last line: the first
      line after which the braces balance, or 0 if there is none. */
  method FindLastLine(elided: seq<string>, linenum: nat) returns (lastLine: nat)
    ensures lastLine == N.LastLine(elided, linenum, 0)
    ensures || (&& linenum <= lastLine < |elided| && Balance(elided, linenum, lastLine + 1) == 0
                && forall k | linenum < k <= lastLine :: Balance(elided, linenum, k) != 0)
            || (lastLine == 0 && forall k | linenum < k <= |elided| :: Balance(elided, linenum, k) != 0)
  {
    hide Count;
    lastLine := 0;
    var depth: int, i := 0, linenum;
    while i < |elided|
      invariant linenum <= i && (linenum <= |elided| ==> i <= |elided| && depth == Balance(elided, linenum, i))
      invariant forall k | linenum < k <= i && k <= |elided| :: Balance(elided, linenum, k) != 0
      invariant N.LastLine(elided, linenum, 0) == N.LastLine(elided, i, depth)
    {
      depth := depth + Count(elided[i], '{') - Count(elided[i], '}');
      if depth == 0 {
        lastLine := i;
        return;
      }
      i := i + 1;
    }
  }

  /** A whole file: the object program ends with the values of the run on values, so the
      theorems about that run hold of it. */
  method TrackFile(f: N.File) returns (state: NestingState)
    requires |f.raw| == |f.elided|
    ensures fresh(state) && state.Valid()
    ensures state.View() == B.Whole(f)
  {
    hide N.Update, Saved, Separate, SavedViews, Views, Distinct;
    state := new NestingState();
    SavedNone();
    for linenum := 0 to |f.elided|
      invariant fresh(state) && fresh(Entries(state.ppStack))
      invariant fresh(Items(state.stack)) && (forall b | b in Saved(state.ppStack) :: fresh(b))
      invariant state.Valid()
      invariant state.View() == B.Run(f, B.Upto(linenum), N.State([], []))
    {
      assert B.Upto(linenum + 1) == B.Upto(linenum) + [linenum];
      B.RunLast(f, B.Upto(linenum), linenum, N.State([], []));
      state.Update(f, linenum);
    }
  }

  // ----- the previous top changes

  /** An opening brace, and then a line with an opening parenthesis. */
  function TwoLines(): N.File {
    N.File(["{", "("], ["{", "("], N.Patterns(_ => None, _ => None, _ => false))
  }

  lemma OneCharacter(c: char)
    requires !IsSpace(c) && c != '#' && c != '\n'
    ensures N.DirectiveOf([c]) == N.Other && N.NamespaceDecl([c]) == None
    ensures forall x :: Count([c], x) == if c == x then 1 else 0
  {
    assert LStrip([c]) == [c];
    assert [c][1..] == [];
    assert forall x :: Count([c][1..], x) == 0;
  }

  /** The value of the block that the first line opens. */
  lemma FirstLineValue(f: N.File)
    requires f == TwoLines()
    ensures N.Update(f, 0, N.State([], [])).stack == [N.NewBlock(N.Brace)]
  {
    OneCharacter('{');
    assert N.BraceToken("{") == Some(('{', "")) && N.BraceToken("") == None;
    assert [] + [N.NewBlock(N.Brace)] == [N.NewBlock(N.Brace)];
    hide N.DirectiveOf, N.NamespaceDecl, N.BraceToken, Count;
  }

  /** After the two lines the tracker remembers the block that the first line opened as the
      previous top, and this block is not as it was when the second line began. */
  method PreviousTopChanges() returns (state: NestingState)
    ensures N.Update(TwoLines(), 0, N.State([], [])).stack == [N.NewBlock(N.Brace)]
    ensures state.View() == N.Update(TwoLines(), 1, N.Update(TwoLines(), 0, N.State([], [])))
    ensures state.previousStackTop != null
    ensures state.previousStackTop.openParentheses == N.NewBlock(N.Brace).openParentheses + 1
  {
    hide N.Update, N.DirectiveOf, N.NamespaceDecl, Count, Saved, Separate, SavedViews, Distinct;
    var f := TwoLines();
    OneCharacter('(');
    FirstLineValue(f);
    SavedNone();
    state := new NestingState();
    state.Update(f, 0);
    assert state.View().stack == [N.NewBlock(N.Brace)];
    assert |state.stack| == 1;
    TopOf(state.stack);
    var top := Last(state.stack);
    assert top.View() == Views(state.stack)[|state.stack| - 1] == N.NewBlock(N.Brace);
    assert f.elided[1] == ['('];
    label Second:
    state.Update(f, 1);
    assert Parenthesized@Second(f, ['('], top);
  }
}
