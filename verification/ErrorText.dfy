/** The repair on the text of a line: every number that follows an opening parenthesis is
    replaced, not only the assertion code. */
module ErrorText {
  import opened Chars
  import opened ErrorCodes

  predicate IsBlank(c: char) {
    c == ' '
  }

  predicate IsDigit(c: char) {
    '0' <= c <= '9'
  }

  /** Blanks, and then digits, after an opening parenthesis. */
  function Lead(s: string): (b: nat)
    ensures b <= |s|
  {
    Span(s, IsBlank)
  }

  function NumberEnd(s: string): (e: nat)
    ensures Lead(s) <= e <= |s|
  {
    Lead(s) + Span(s[Lead(s)..], IsDigit)
  }

  predicate HasNumber(s: string) {
    Lead(s) < NumberEnd(s)
  }

  /** `re.sub(r'(\( *)(\d+)', r'\g<1>' + code, line)` */
  function Sub(line: string, code: string): string
    decreases |line|
  {
    if line == [] then []
    else
      var rest := line[1..];
      if line[0] == '(' && HasNumber(rest) then
        "(" + rest[..Lead(rest)] + code + Sub(rest[NumberEnd(rest)..], code)
      else [line[0]] + Sub(rest, code)
  }

  /** The numbers that follow an opening parenthesis, from left to right. */
  function Numbers(line: string): seq<string>
    decreases |line|
  {
    if line == [] then []
    else
      var rest := line[1..];
      if line[0] == '(' && HasNumber(rest) then
        [rest[Lead(rest)..NumberEnd(rest)]] + Numbers(rest[NumberEnd(rest)..])
      else Numbers(rest)
  }

  /** The line without these numbers. */
  function Skeleton(line: string): string
    decreases |line|
  {
    if line == [] then []
    else
      var rest := line[1..];
      if line[0] == '(' && HasNumber(rest) then
        "(" + rest[..Lead(rest)] + Skeleton(rest[NumberEnd(rest)..])
      else [line[0]] + Skeleton(rest)
  }

  /** The same text with given numbers in the place of its own. */
  function Filled(line: string, codes: seq<string>): string
    requires |codes| == |Numbers(line)|
    decreases |line|
  {
    if line == [] then []
    else
      var rest := line[1..];
      if line[0] == '(' && HasNumber(rest) then
        "(" + rest[..Lead(rest)] + codes[0] + Filled(rest[NumberEnd(rest)..], codes[1..])
      else [line[0]] + Filled(rest, codes)
  }

  function Repeat(code: string, n: nat): (r: seq<string>)
    ensures |r| == n && forall k | 0 <= k < n :: r[k] == code
  {
    seq(n, _ => code)
  }

  lemma {:induction false} SubIsFilled(line: string, code: string)
    ensures Sub(line, code) == Filled(line, Repeat(code, |Numbers(line)|))
    decreases |line|
  {
    hide HasNumber, NumberEnd, Lead;
    if line != [] {
      var rest := line[1..];
      if line[0] == '(' && HasNumber(rest) {
        SubIsFilled(rest[NumberEnd(rest)..], code);
        assert Repeat(code, |Numbers(line)|)[1..] == Repeat(code, |Numbers(line)| - 1);
      } else {
        SubIsFilled(rest, code);
      }
    }
  }

  // ----- reading back what was written

  predicate AllNumbers(codes: seq<string>) {
    forall k | 0 <= k < |codes| :: IsCode(codes[k])
  }

  lemma FirstStays(line: string, codes: seq<string>)
    requires line != [] && |codes| == |Numbers(line)|
    ensures Filled(line, codes) != [] && Filled(line, codes)[0] == line[0]
  {
    hide HasNumber, NumberEnd, Lead, Numbers;
  }

  /** Where no number follows a parenthesis, none follows it afterwards. */
  lemma {:induction false} StillNoNumber(s: string, codes: seq<string>)
    requires |codes| == |Numbers(s)| && !HasNumber(s)
    ensures !HasNumber(Filled(s, codes))
    decreases |s|
  {
    if s != [] {
      var t := Filled(s, codes);
      FirstStays(s, codes);
      if s[0] == ' ' {
        BlankFirst(s);
        assert t == [' '] + Filled(s[1..], codes);
        StillNoNumber(s[1..], codes);
        assert t[1..] == Filled(s[1..], codes);
        BlankFirst(t);
      } else {
        assert Lead(s) == 0 && s[0..] == s;
        assert Lead(t) == 0 && t[0..] == t;
        assert Span(t, IsDigit) == 0;
      }
    }
  }

  lemma BlankFirst(s: string)
    requires s != [] && s[0] == ' '
    ensures HasNumber(s) <==> HasNumber(s[1..])
  {
    assert Lead(s) == 1 + Lead(s[1..]);
    assert s[Lead(s)..] == s[1..][Lead(s[1..])..];
  }

  /** The blanks and the new number are found again. */
  lemma NumberFound(blanks: string, code: string, tail: string)
    requires (forall k | 0 <= k < |blanks| :: blanks[k] == ' ') && IsCode(code) && (tail != [] ==> !IsDigit(tail[0]))
    ensures var s := blanks + code + tail;
            Lead(s) == |blanks| && NumberEnd(s) == |blanks| + |code| && HasNumber(s)
  {
    var s := blanks + code + tail;
    assert s[|blanks|] == code[0];
    SpanIs(s, IsBlank, |blanks|);
    assert s[|blanks|..] == code + tail;
    SpanIs(code + tail, IsDigit, |code|);
  }

  lemma NumberSplits(rest: string)
    requires HasNumber(rest)
    ensures forall k | 0 <= k < Lead(rest) :: rest[k] == ' '
    ensures var tail := rest[NumberEnd(rest)..]; tail != [] ==> !IsDigit(tail[0])
  {
    var b := Lead(rest);
    assert forall k | 0 <= k < b :: rest[..b][k] == rest[k];
    var d := rest[b..];
    assert NumberEnd(rest) < |rest| ==> d[Span(d, IsDigit)] == rest[NumberEnd(rest)];
  }

  /** Reading a line back gives the numbers that were written, and all else as it was. */
  lemma {:induction false} FilledMeans(line: string, codes: seq<string>)
    requires |codes| == |Numbers(line)| && AllNumbers(codes)
    ensures Numbers(Filled(line, codes)) == codes && Skeleton(Filled(line, codes)) == Skeleton(line)
    decreases |line|
  {
    hide HasNumber, NumberEnd, Lead, IsCode;
    if line != [] {
      var rest := line[1..];
      var t := Filled(line, codes);
      if line[0] == '(' && HasNumber(rest) {
        var tail := rest[NumberEnd(rest)..];
        var blanks, code, after := rest[..Lead(rest)], codes[0], Filled(tail, codes[1..]);
        FilledMeans(tail, codes[1..]);
        NumberSplits(rest);
        if tail != [] {
          FirstStays(tail, codes[1..]);
        }
        ReadWritten(blanks, code, after, t);
      } else {
        FilledMeans(rest, codes);
        if line[0] == '(' {
          StillNoNumber(rest, codes);
        }
        assert t[1..] == Filled(rest, codes);
      }
    }
  }

  lemma ReadWritten(blanks: string, code: string, after: string, t: string)
    requires (forall k | 0 <= k < |blanks| :: blanks[k] == ' ') && IsCode(code)
    requires (after == [] || !IsDigit(after[0])) && t == "(" + blanks + code + after
    ensures Numbers(t) == [code] + Numbers(after)
    ensures Skeleton(t) == "(" + blanks + Skeleton(after)
  {
    hide HasNumber, NumberEnd, Lead;
    var s := blanks + code + after;
    NumberFound(blanks, code, after);
    assert t[1..] == s && t[0] == '(';
    Slices(blanks, code, after);
  }

  /** After the repair every number after a parenthesis is the new code, whichever of them the
      parser reads, and the rest of the line is as it was. */
  lemma SubMeans(line: string, code: string)
    requires IsCode(code)
    ensures Numbers(Sub(line, code)) == Repeat(code, |Numbers(line)|)
    ensures Skeleton(Sub(line, code)) == Skeleton(line)
  {
    SubIsFilled(line, code);
    FilledMeans(line, Repeat(code, |Numbers(line)|));
  }

  /** Filling a line twice is filling it once. */
  lemma {:induction false} FilledTwice(line: string, codes: seq<string>, more: seq<string>)
    requires |codes| == |Numbers(line)| == |more| && AllNumbers(codes)
    ensures |Numbers(Filled(line, codes))| == |more| && Filled(Filled(line, codes), more) == Filled(line, more)
    decreases |line|
  {
    hide HasNumber, NumberEnd, Lead, IsCode;
    FilledMeans(line, codes);
    if line != [] {
      var rest := line[1..];
      var t := Filled(line, codes);
      if line[0] == '(' && HasNumber(rest) {
        var tail := rest[NumberEnd(rest)..];
        var blanks, after := rest[..Lead(rest)], Filled(tail, codes[1..]);
        FilledTwice(tail, codes[1..], more[1..]);
        NumberSplits(rest);
        if tail != [] {
          FirstStays(tail, codes[1..]);
        }
        RefillWritten(blanks, codes[0], after, t, more);
      } else {
        FilledTwice(rest, codes, more);
        if line[0] == '(' {
          StillNoNumber(rest, codes);
        }
        assert t[1..] == Filled(rest, codes);
      }
    }
  }

  lemma Slices(blanks: string, code: string, after: string)
    ensures var s := blanks + code + after;
            && s[..|blanks|] == blanks
            && s[|blanks|..|blanks| + |code|] == code
            && s[|blanks| + |code|..] == after
  {
  }

  /** One number, unfolded. */
  lemma AtNumber(t: string, more: seq<string>)
    requires t != [] && t[0] == '(' && HasNumber(t[1..]) && |more| == |Numbers(t)|
    ensures var rest := t[1..];
            && |Numbers(rest[NumberEnd(rest)..])| + 1 == |more|
            && Filled(t, more) == "(" + rest[..Lead(rest)] + more[0] + Filled(rest[NumberEnd(rest)..], more[1..])
  {
    hide HasNumber, NumberEnd, Lead;
  }

  lemma RefillWritten(blanks: string, code: string, after: string, t: string, more: seq<string>)
    requires (forall k | 0 <= k < |blanks| :: blanks[k] == ' ') && IsCode(code)
    requires (after == [] || !IsDigit(after[0])) && t == "(" + blanks + code + after
    requires |more| == |Numbers(after)| + 1
    ensures |Numbers(t)| == |more| && Filled(t, more) == "(" + blanks + more[0] + Filled(after, more[1..])
  {
    hide HasNumber, NumberEnd, Lead, IsCode, Skeleton, IsDigit, Numbers, Filled;
    ReadWritten(blanks, code, after, t);
    OpensWith(blanks, code, after, t);
    NumberFound(blanks, code, after);
    Slices(blanks, code, after);
    AtNumber(t, more);
  }

  lemma OpensWith(blanks: string, code: string, after: string, t: string)
    requires t == "(" + blanks + code + after
    ensures t != [] && t[0] == '(' && t[1..] == blanks + code + after
  {
  }

  lemma SubTwice(line: string, a: string, b: string)
    requires IsCode(a)
    ensures Sub(Sub(line, a), b) == Sub(line, b)
  {
    hide Sub, Filled, Numbers;
    var n := |Numbers(line)|;
    SubIsFilled(line, a);
    SubIsFilled(line, b);
    SubMeans(line, a);
    SubIsFilled(Sub(line, a), b);
    FilledTwice(line, Repeat(a, n), Repeat(b, n));
  }

  // ----- the repair of a file, read back

  /** The parser: which of the numbers of a line is the assertion code, if it has one.  The
      patterns ask for some number in that place, so the answer does not depend on the digits. */
  type Parser = string -> Option<nat>

  function CodeOf(parser: Parser, line: string): (code: Option<string>)
  {
    match parser(Sub(line, "0"))
    case None => None
    case Some(i) => if i < |Numbers(line)| then Some(Numbers(line)[i]) else None
  }

  /** Every parser reads the new code from a repaired line, and a code from no other lines than
      before. */
  lemma ReadsNewCode(parser: Parser, line: string, code: string)
    requires IsCode(code)
    ensures CodeOf(parser, Sub(line, code)) == if CodeOf(parser, line).Some? then Some(code) else None
  {
    hide Sub, Numbers;
    SubTwice(line, code, "0");
    SubMeans(line, code);
  }

  type Text = map<Place, string>

  /** The codes of the source lines. */
  function CodesIn(parser: Parser, text: Text): Source {
    map p | p in text && CodeOf(parser, text[p]).Some? :: CodeOf(parser, text[p]).value
  }

  /** The repair on the lines: each error rewrites its line with the next number. */
  function ReplaceText(text: Text, zs: seq<Location>, next: nat): Text {
    if zs == [] then text
    else
      var t := ReplaceText(text, zs[..|zs| - 1], next);
      var p := zs[|zs| - 1].place;
      if p in t then t[p := Sub(t[p], StrOf(next + |zs| - 1))] else t
  }

  lemma RewriteOne(parser: Parser, text: Text, p: Place, code: string)
    requires p in CodesIn(parser, text) && IsCode(code)
    ensures CodesIn(parser, text[p := Sub(text[p], code)]) == CodesIn(parser, text)[p := code]
  {
    hide CodeOf, Sub, IsCode;
    ReadsNewCode(parser, text[p], code);
  }

  lemma RewriteOneKeeps(parser: Parser, text: Text, p: Place, code: string)
    requires p in CodesIn(parser, text) && IsCode(code)
    ensures CodesIn(parser, text[p := Sub(text[p], code)]).Keys == CodesIn(parser, text).Keys
  {
    hide CodeOf, Sub, IsCode;
    ReadsNewCode(parser, text[p], code);
  }

  /** Reading the repaired lines gives what the repair does to the codes: the repair may be
      looked at on the codes alone. */
  lemma {:induction false} RepairReads(parser: Parser, text: Text, zs: seq<Location>, next: nat)
    requires forall k | 0 <= k < |zs| :: zs[k].place in CodesIn(parser, text)
    ensures CodesIn(parser, ReplaceText(text, zs, next)) == Replace(CodesIn(parser, text), zs, next)
    ensures CodesIn(parser, ReplaceText(text, zs, next)).Keys == CodesIn(parser, text).Keys
    decreases |zs|
  {
    hide CodesIn, Sub, StrOf, IsCode;
    if zs != [] {
      var front := zs[..|zs| - 1];
      RepairReads(parser, text, front, next);
      var t := ReplaceText(text, front, next);
      var p := zs[|zs| - 1].place;
      CodesAreLines(parser, t);
      RewriteOne(parser, t, p, StrOf(next + |zs| - 1));
      RewriteOneKeeps(parser, t, p, StrOf(next + |zs| - 1));
    }
  }

  lemma CodesAreLines(parser: Parser, text: Text)
    ensures CodesIn(parser, text).Keys <= text.Keys
  {
  }

  /** The other numbers of the line stay exactly when each of them was the new code. */
  lemma OnlyCodeChangesIff(line: string, code: string, i: nat)
    requires IsCode(code) && i < |Numbers(line)|
    ensures Numbers(Sub(line, code)) == Numbers(line)[i := code] <==>
            forall k | 0 <= k < |Numbers(line)| && k != i :: Numbers(line)[k] == code
  {
    SubMeans(line, code);
    hide Numbers;
    var ns := Numbers(line);
    var want := ns[i := code];
    var got := Repeat(code, |ns|);
    assert forall k | 0 <= k < |ns| && k != i :: ns[k] == want[k];
    if forall k | 0 <= k < |ns| && k != i :: ns[k] == code {
      assert got == want;
    } else {
      var k :| 0 <= k < |ns| && k != i && ns[k] != code;
      assert got[k] != want[k];
    }
  }

  lemma {:induction false} NoParenthesis(a: string, b: string)
    requires '(' !in a
    ensures Numbers(a + b) == Numbers(b)
  {
    if a == [] {
      assert a + b == b;
    } else {
      assert (a + b)[1..] == a[1..] + b;
      NoParenthesis(a[1..], b);
    }
  }

  lemma OneNumber(head: string, code: string, after: string)
    requires '(' !in head && IsCode(code) && (after == [] || !IsDigit(after[0]))
    ensures Numbers(head + ("(" + code + after)) == [code] + Numbers(after)
  {
    hide Numbers, Skeleton;
    var t := "(" + code + after;
    assert t == "(" + "" + code + after;
    ReadWritten("", code, after, t);
    NoParenthesis(head, t);
  }

  lemma TwoNumbers(head: string, a: string, mid: string, b: string, tail: string)
    requires '(' !in head && '(' !in mid && '(' !in tail && IsCode(a) && IsCode(b)
    requires mid != [] && !IsDigit(mid[0]) && (tail == [] || !IsDigit(tail[0]))
    ensures Numbers(head + ("(" + a + (mid + ("(" + b + tail)))) == [a, b]
  {
    hide Numbers, IsDigit, IsCode;
    NoParenthesis(tail, []);
    assert tail + [] == tail;
    NoNumbers();
    OneNumber(mid, b, tail);
    var after := mid + ("(" + b + tail);
    assert after[0] == mid[0];
    OneNumber(head, a, after);
  }

  lemma NoNumbers()
    ensures Numbers([]) == []
  {
  }

  /** A line with a zero code on which the repair also changes an argument of a nested call. */
  lemma OtherNumberLost()
    ensures var line := "uassert(0,f(7));";
            Numbers(line) == ["0", "7"] && Numbers(Sub(line, "12")) == ["12", "12"]
  {
    hide Numbers, Sub;
    TwoNumbers("uassert", "0", ",f", "7", "));");
    assert "uassert" + ("(" + "0" + (",f" + ("(" + "7" + "));"))) == "uassert(0,f(7));";
    SubMeans("uassert(0,f(7));", "12");
  }
}
