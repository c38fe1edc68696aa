/** The language of well-bracketed text over `()`, `[]`, `{}`: a grammar, a one-pass
    recogniser with a stack, and the theorem that the two agree.  Every bracket matcher
    of the linter is measured against this grammar. */
module Dyck {
  import opened Chars

  predicate Opener(c: char) { c == '(' || c == '[' || c == '{' }

  predicate Closer(c: char) { c == ')' || c == ']' || c == '}' }

  predicate Bracket(c: char) { Opener(c) || Closer(c) }

  /** The opposite bracket of the same shape; other characters are left alone. */
  function Partner(c: char): (r: char)
    ensures Opener(c) <==> Closer(r)
    ensures Closer(c) <==> Opener(r)
  {
    match c
    case '(' => ')'
    case ')' => '('
    case '[' => ']'
    case ']' => '['
    case '{' => '}'
    case '}' => '{'
    case _ => c
  }

  // ----- grammar

  datatype Text =
    | Done
    | Char(c: char, rest: Text)
    | Group(open: char, inside: Text, rest: Text)

  predicate WellFormed(t: Text) {
    match t
    case Done => true
    case Char(c, rest) => !Bracket(c) && WellFormed(rest)
    case Group(open, inside, rest) => Opener(open) && WellFormed(inside) && WellFormed(rest)
  }

  function Render(t: Text): string {
    match t
    case Done => ""
    case Char(c, rest) => [c] + Render(rest)
    case Group(open, inside, rest) => [open] + Render(inside) + [Partner(open)] + Render(rest)
  }

  ghost predicate Balanced(s: string) {
    exists t :: WellFormed(t) && Render(t) == s
  }

  /** An opening bracket, balanced text, and the closing bracket of the same shape. */
  ghost predicate IsGroup(s: string) {
    && |s| >= 2
    && Opener(s[0])
    && s[|s| - 1] == Partner(s[0])
    && Balanced(s[1..|s| - 1])
  }

  // ----- recogniser

  datatype Outcome = Closed(end: nat) | Broken | Pending(stack: string)

  function Shift(n: nat, r: Outcome): Outcome {
    if r.Closed? then Closed(n + r.end) else r
  }

  /** One character against a stack of open brackets (innermost last). */
  function Feed(st: string, c: char): Option<string> {
    if Opener(c) then Some(st + [c])
    else if !Closer(c) then Some(st)
    else if st != [] && c == Partner(st[|st| - 1]) then Some(st[..|st| - 1])
    else None
  }

  /** Reads `s` until the stack first shrinks to `floor` entries. */
  function Return(st: string, floor: nat, s: string): (r: Outcome)
    requires |st| > floor
    ensures r.Closed? ==> 1 <= r.end <= |s|
    ensures r.Pending? ==> |r.stack| > floor
    decreases |s|
  {
    if s == [] then Pending(st)
    else
      match Feed(st, s[0])
      case None => Broken
      case Some(st') => if |st'| == floor then Closed(1) else Shift(1, Return(st', floor, s[1..]))
  }

  /** Reads `s` until every bracket on the stack has been closed. */
  function FirstClose(st: string, s: string): (r: Outcome)
    requires st != []
    ensures r.Closed? ==> 1 <= r.end <= |s|
    ensures r.Pending? ==> r.stack != []
  {
    Return(st, 0, s)
  }

  /** Reading a concatenation is reading one part after the other. */
  lemma {:induction false} ReturnConcat(st: string, floor: nat, a: string, b: string)
    requires |st| > floor
    ensures Return(st, floor, a + b) ==
            var r := Return(st, floor, a);
            if r.Pending? then Shift(|a|, Return(r.stack, floor, b)) else r
    decreases |a|
  {
    if a == [] {
      assert a + b == b;
    } else {
      assert (a + b)[1..] == a[1..] + b;
      var next := Feed(st, a[0]);
      if next.Some? && |next.value| > floor {
        ReturnConcat(next.value, floor, a[1..], b);
      }
    }
  }

  /** To come down to `floor`, a taller stack first comes down one entry above it,
      with the lower entries untouched. */
  lemma {:induction false} ReturnVia(st: string, floor: nat, s: string)
    requires |st| > floor + 1
    ensures Return(st, floor, s) ==
            var r := Return(st, floor + 1, s);
            if r.Closed? then Shift(r.end, Return(st[..floor + 1], floor, s[r.end..])) else r
    decreases |s|
  {
    if s != [] {
      var next := Feed(st, s[0]);
      if next.Some? {
        if |next.value| == floor + 1 {
          assert next.value == st[..floor + 1];
        } else {
          ReturnVia(next.value, floor, s[1..]);
          assert next.value[..floor + 1] == st[..floor + 1];
          var r := Return(next.value, floor + 1, s[1..]);
          if r.Closed? {
            assert s[1..][r.end..] == s[1 + r.end..];
          }
        }
      }
    }
  }

  // ----- the recogniser decides the grammar

  /** Balanced text leaves the stack as it found it. */
  lemma {:induction false} ReadBalanced(t: Text, st: string, floor: nat, s: string)
    requires WellFormed(t) && |st| > floor
    ensures Return(st, floor, Render(t) + s) == Shift(|Render(t)|, Return(st, floor, s))
    decreases t
  {
    match t
    case Done =>
      assert Render(t) + s == s;
    case Char(c, rest) =>
      assert (Render(t) + s)[1..] == Render(rest) + s;
      ReadBalanced(rest, st, floor, s);
    case Group(open, inside, rest) =>
      var tail := [Partner(open)] + (Render(rest) + s);
      assert Render(t) + s == [open] + (Render(inside) + tail);
      ReadBalanced(inside, st + [open], floor, tail);
      ReadBalanced(rest, st, floor, s);
      assert tail[1..] == Render(rest) + s;
      assert (st + [open])[..|st|] == st;
  }

  /** Coming down exactly one entry means having read balanced text and the closing
      bracket of that entry. */
  lemma {:induction false} ParseReturn(st: string, s: string) returns (t: Text)
    requires st != [] && Return(st, |st| - 1, s).Closed?
    ensures WellFormed(t)
    ensures s[..Return(st, |st| - 1, s).end] == Render(t) + [Partner(st[|st| - 1])]
    decreases |s|
  {
    var c := s[0];
    if Closer(c) {
      t := Done;
    } else if !Opener(c) {
      var rest := ParseReturn(st, s[1..]);
      t := Char(c, rest);
      PrependChar(c, s, Return(st, |st| - 1, s).end, Render(rest) + [Partner(st[|st| - 1])]);
    } else {
      var m := NestedReturn(st, s);
      var inside := ParseReturn(st + [c], s[1..]);
      var rest := ParseReturn(st, s[1 + m..]);
      t := Group(c, inside, rest);
      JoinParts(c, s, m, Return(st, |st| - 1, s).end, Render(inside), Render(rest), st[|st| - 1]);
    }
  }

  /** After an opening bracket, the nested group is read first and the rest after it. */
  lemma NestedReturn(st: string, s: string) returns (m: nat)
    requires st != [] && s != [] && Opener(s[0]) && Return(st, |st| - 1, s).Closed?
    ensures 1 + m <= |s| && Return(st + [s[0]], |st|, s[1..]) == Closed(m)
    ensures Return(st, |st| - 1, s) == Shift(1 + m, Return(st, |st| - 1, s[1 + m..]))
  {
    ReturnVia(st + [s[0]], |st| - 1, s[1..]);
    m := Return(st + [s[0]], |st|, s[1..]).end;
    assert (st + [s[0]])[..|st|] == st;
    assert s[1..][m..] == s[1 + m..];
  }

  lemma PrependChar(c: char, s: string, n: nat, u: string)
    requires 1 <= n <= |s| && s[0] == c && s[1..][..n - 1] == u
    ensures s[..n] == [c] + u
  {
  }

  lemma JoinParts(c: char, s: string, m: nat, n: nat, inside: string, rest: string, top: char)
    requires 1 + m <= n <= |s| && s[0] == c
    requires s[1..][..m] == inside + [Partner(c)] && s[1 + m..][..n - 1 - m] == rest + [Partner(top)]
    ensures s[..n] == [c] + inside + [Partner(c)] + rest + [Partner(top)]
  {
    assert s[..n] == [c] + s[1..][..m] + s[1 + m..][..n - 1 - m];
  }

  /** The recogniser started just after an opening bracket stops exactly at the end of
      the group that this bracket opens, and fails to stop when there is none. */
  lemma GroupIffClosed(o: char, s: string, n: nat)
    requires Opener(o) && n <= |s|
    ensures IsGroup([o] + s[..n]) <==> FirstClose([o], s) == Closed(n)
  {
    var g := [o] + s[..n];
    if IsGroup(g) {
      var t :| WellFormed(t) && Render(t) == g[1..|g| - 1];
      assert s[..n] == Render(t) + [Partner(o)];
      assert s == Render(t) + ([Partner(o)] + s[n..]);
      ReadBalanced(t, [o], 0, [Partner(o)] + s[n..]);
    }
    if FirstClose([o], s) == Closed(n) {
      var t := ParseReturn([o], s);
      assert g[1..|g| - 1] == Render(t);
    }
  }

  /** No group is a proper prefix of another: the end of a group is determined by its start. */
  lemma GroupPrefixFree(a: string, b: string)
    requires IsGroup(a) && IsGroup(a + b)
    ensures b == []
  {
    var s := (a + b)[1..];
    assert a == [a[0]] + s[..|a| - 1];
    GroupIffClosed(a[0], s, |a| - 1);
    assert a + b == [a[0]] + s[..|a + b| - 1];
    GroupIffClosed(a[0], s, |a + b| - 1);
  }

  // ----- reading from the right

  /** Text as seen in a mirror: reversed, with every bracket turned round. */
  function Mirror(s: string): (r: string)
    ensures |r| == |s|
    ensures forall k | 0 <= k < |s| :: r[k] == Partner(s[|s| - 1 - k])
  {
    if s == [] then "" else [Partner(s[|s| - 1])] + Mirror(s[..|s| - 1])
  }

  lemma MirrorConcat(a: string, b: string)
    ensures Mirror(a + b) == Mirror(b) + Mirror(a)
  {
  }

  lemma MirrorTwice(s: string)
    ensures Mirror(Mirror(s)) == s
  {
  }

  function Append(a: Text, b: Text): Text {
    match a
    case Done => b
    case Char(c, rest) => Char(c, Append(rest, b))
    case Group(open, inside, rest) => Group(open, inside, Append(rest, b))
  }

  lemma {:induction false} AppendRender(a: Text, b: Text)
    requires WellFormed(a) && WellFormed(b)
    ensures WellFormed(Append(a, b)) && Render(Append(a, b)) == Render(a) + Render(b)
    decreases a
  {
    match a
    case Done =>
    case Char(_, rest) => AppendRender(rest, b);
    case Group(_, _, rest) => AppendRender(rest, b);
  }

  function MirrorText(t: Text): Text {
    match t
    case Done => Done
    case Char(c, rest) => Append(MirrorText(rest), Char(c, Done))
    case Group(open, inside, rest) => Append(MirrorText(rest), Group(open, MirrorText(inside), Done))
  }

  lemma {:induction false} MirrorRender(t: Text)
    requires WellFormed(t)
    ensures WellFormed(MirrorText(t)) && Render(MirrorText(t)) == Mirror(Render(t))
  {
    match t
    case Done =>
    case Char(c, rest) =>
      MirrorRender(rest);
      AppendRender(MirrorText(rest), Char(c, Done));
      MirrorConcat([c], Render(rest));
    case Group(open, inside, rest) =>
      MirrorRender(inside);
      MirrorRender(rest);
      AppendRender(MirrorText(rest), Group(open, MirrorText(inside), Done));
      MirrorConcat([open] + Render(inside) + [Partner(open)], Render(rest));
      MirrorWrapped(open, Render(inside));
  }

  lemma MirrorWrapped(open: char, s: string)
    requires Opener(open)
    ensures Mirror([open] + s + [Partner(open)]) == [open] + Mirror(s) + [Partner(open)]
  {
  }

  /** The mirror image of a group is a group. */
  lemma MirrorGroup(s: string)
    ensures IsGroup(Mirror(s)) <==> IsGroup(s)
  {
    if IsGroup(s) {
      MirrorGroupForward(s);
    }
    if IsGroup(Mirror(s)) {
      MirrorGroupForward(Mirror(s));
      MirrorTwice(s);
    }
  }

  lemma MirrorGroupForward(s: string)
    requires IsGroup(s)
    ensures IsGroup(Mirror(s))
  {
    var t :| WellFormed(t) && Render(t) == s[1..|s| - 1];
    MirrorRender(t);
    assert Mirror(s)[1..|s| - 1] == Mirror(s[1..|s| - 1]);
  }
}
