/** Every branch of a conditional begins with the nesting stack from before the conditional. */
module NestingBranches {
  import opened Nesting
  import opened BranchErasure

  /** Lines of one conditional, read with `d` others open inside it: they close each of these,
      and may turn to other branches of it, but do not close it. */
  predicate Branches(f: File, ls: seq<nat>, d: nat)
    requires LineNumbers(f, ls)
  {
    if ls == [] then d == 0
    else
      match DirectiveOf(f.elided[ls[0]])
      case If => Branches(f, ls[1..], d + 1)
      case Else => Branches(f, ls[1..], d)
      case Endif => d > 0 && Branches(f, ls[1..], d - 1)
      case Other => Branches(f, ls[1..], d)
  }

  /** The conditional that was opened on top of `base` at the stack `before` is still there. */
  ghost predicate Remembers(base: seq<Saved>, before: Stack, pp: seq<Saved>) {
    |base| < |pp| && pp[..|base|] == base && pp[|base|].beforeIf == before
  }

  lemma DirectiveRemembers(base: seq<Saved>, before: Stack, st: State, d: Directive)
    requires Remembers(base, before, st.pp) && (d == Endif ==> |st.pp| > |base| + 1)
    ensures var st' := UpdatePreprocessor(st, d);
            && Remembers(base, before, st'.pp)
            && |st'.pp| == |st.pp| + (if d == If then 1 else if d == Endif then -1 else 0)
  {
  }

  lemma {:induction false} RunRemembers(f: File, ls: seq<nat>, base: seq<Saved>, before: Stack, st: State)
    requires LineNumbers(f, ls) && Remembers(base, before, st.pp) && Branches(f, ls, |st.pp| - |base| - 1)
    ensures var pp := Run(f, ls, st).pp; Remembers(base, before, pp) && |pp| == |base| + 1
    decreases |ls|
  {
    hide DirectiveOf, UpdateBlocks, UpdatePreprocessor;
    if ls != [] {
      DirectiveRemembers(base, before, st, DirectiveOf(f.elided[ls[0]]));
      RunRemembers(f, ls[1..], base, before, Update(f, ls[0], st));
    }
  }

  lemma Turn(f: File, e: nat, base: seq<Saved>, before: Stack, st: State)
    requires e < |f.elided| && e < |f.raw| && DirectiveOf(f.elided[e]) == Else
    requires Remembers(base, before, st.pp) && |st.pp| == |base| + 1
    ensures Update(f, e, st).stack == UpdateBlocks(f, e, before)
  {
    hide DirectiveOf, UpdateBlocks;
  }

  /** The lines from an `#if` up to any of its `#else` or `#elif`, whatever they hold, and that
      line: the stack is the one from before the `#if`, changed only by that line itself. */
  lemma BranchStartsOver(f: File, i: nat, mid: seq<nat>, e: nat, st: State)
    requires i < |f.elided| && i < |f.raw| && e < |f.elided| && e < |f.raw|
    requires LineNumbers(f, mid) && Branches(f, mid, 0)
    requires DirectiveOf(f.elided[i]) == If && DirectiveOf(f.elided[e]) == Else
    ensures Update(f, e, Run(f, mid, Update(f, i, st))).stack == UpdateBlocks(f, e, st.stack)
    ensures st.pp <= Update(f, e, Run(f, mid, Update(f, i, st))).pp
  {
    hide DirectiveOf, UpdateBlocks, Run;
    var entered := Update(f, i, st);
    assert Remembers(st.pp, st.stack, entered.pp);
    RunRemembers(f, mid, st.pp, st.stack, entered);
    var last := Run(f, mid, entered);
    Turn(f, e, st.pp, st.stack, last);
    DirectiveRemembers(st.pp, st.stack, last, Else);
  }
}
