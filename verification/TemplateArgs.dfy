/** The look-ahead that decides whether a class name stands inside a template argument
    list.  It hops from token to token and across matched `<...>`, over any number of
    lines. */
module TemplateArgs {
  import opened Chars
  import opened BracketScan

  predicate Decisive(c: char) {
    c in "{};=[].<>"
  }

  function LastVisible(s: string): (r: Option<nat>)
    ensures r.Some? ==> r.value < |s|
  {
    if s == [] then None
    else if s[|s| - 1] != '\n' then Some(|s| - 1)
    else LastVisible(s[..|s| - 1])
  }

  /** Where `Match(r'^[^{};=\[\]\.<>]*(.)', s)` captures its character: the first decisive
      character (searched from `i` on), or else the last character that is not a newline. */
  function TokenAt(s: string, i: nat := 0): (r: Option<nat>)
    requires i <= |s|
    ensures r.Some? ==> r.value < |s|
    decreases |s| - i
  {
    if i == |s| then LastVisible(s)
    else if Decisive(s[i]) then Some(i)
    else TokenAt(s, i + 1)
  }

  /** One hop: an answer, or the next position to look at. */
  datatype Hop = Answer(inside: bool) | Next(l: nat, pos: nat)

  function HopFrom(lines: seq<string>, l: nat, pos: nat): Hop
    requires l < |lines|
  {
    match TokenAt(From(lines[l], pos))
    case None => Next(l + 1, 0)
    case Some(n) => HopAt(lines, l, pos + n)
  }

  /** The hop decided by the token at `q`. */
  function HopAt(lines: seq<string>, l: nat, q: nat): (h: Hop)
    requires l < |lines| && q < |lines[l]|
    ensures h.Next? ==> h.l > l || (h.l == l && q < h.pos <= |lines[l]|)
  {
    var token := lines[l][q];
    if token == '{' || token == '}' || token == ';' then Answer(false)
    else if token == '>' || token == '=' || token == '[' || token == ']' || token == '.' then Answer(true)
    else if token != '<' then
      if q + 2 >= |lines[l]| then Next(l + 1, 0) else Next(l, q + 2)
    else
      ClosePast(lines, l, q);
      var p := Close(lines, l, q);
      if p.1 < 0 then Answer(false) else Next(p.0, p.1)
  }

  /** What is left of the file from a position on: every hop makes it smaller, because a
      successful CloseExpression ends strictly after its start. */
  function Rest(lines: seq<string>, l: nat, pos: nat): (nat, nat) {
    if l >= |lines| then (0, 0)
    else (|lines| - l, if pos <= |lines[l]| then |lines[l]| - pos else 0)
  }

  predicate InTemplate(lines: seq<string>, l: nat, pos: nat)
    decreases Rest(lines, l, pos).0, Rest(lines, l, pos).1
  {
    if l >= |lines| then false
    else
      match HopFrom(lines, l, pos)
      case Answer(inside) => inside
      case Next(l', pos') => InTemplate(lines, l', pos')
  }

  lemma OneHop(lines: seq<string>, l: nat, pos: nat, hop: Hop)
    requires l < |lines| && hop == HopFrom(lines, l, pos)
    ensures InTemplate(lines, l, pos) == if hop.Answer? then hop.inside else InTemplate(lines, hop.l, hop.pos)
    ensures hop.Next? ==> hop.l > l || (hop.l == l && pos < hop.pos <= |lines[l]|)
  {
  }

  method InTemplateArgumentList(lines: seq<string>, linenum0: nat, pos0: nat) returns (r: bool)
    ensures r == InTemplate(lines, linenum0, pos0)
  {
    var linenum: nat, pos: nat := linenum0, pos0;
    while linenum < |lines|
      invariant InTemplate(lines, linenum0, pos0) == InTemplate(lines, linenum, pos)
      decreases Rest(lines, linenum, pos).0, Rest(lines, linenum, pos).1
    {
      var hop := Look(lines, linenum, pos);
      OneHop(lines, linenum, pos, hop);
      if hop.Answer? {
        return hop.inside;
      }
      linenum, pos := hop.l, hop.pos;
    }
    return false;
  }

  /** The body of the loop: finds the next token and decides on it. */
  method Look(lines: seq<string>, linenum: nat, pos: nat) returns (hop: Hop)
    requires linenum < |lines|
    ensures hop == HopFrom(lines, linenum, pos)
  {
    var m := TokenAt(From(lines[linenum], pos));
    if m.None? {
      return Next(linenum + 1, 0);
    }
    hop := LookAtToken(lines, linenum, pos + m.value);
  }

  method LookAtToken(lines: seq<string>, linenum: nat, q: nat) returns (hop: Hop)
    requires linenum < |lines| && q < |lines[linenum]|
    ensures hop == HopAt(lines, linenum, q)
  {
    var line := lines[linenum];
    var token := line[q];
    var pos := q + 1;
    if token == '{' || token == '}' || token == ';' {
      return Answer(false);
    }
    if token == '>' || token == '=' || token == '[' || token == ']' || token == '.' {
      return Answer(true);
    }
    if token != '<' {
      pos := pos + 1;
      if pos >= |line| {
        return Next(linenum + 1, 0);
      }
      return Next(linenum, pos);
    }
    var _, endLine, endPos := CloseExpression(lines, linenum, pos - 1);
    if endPos < 0 {
      return Answer(false);
    }
    return Next(endLine, endPos);
  }

  // ----- what decides the answer

  lemma {:induction false} LastVisibleMeans(s: string)
    ensures match LastVisible(s)
            case None => forall k | 0 <= k < |s| :: s[k] == '\n'
            case Some(n) => s[n] != '\n' && forall k | n < k < |s| :: s[k] == '\n'
  {
    if s != [] && s[|s| - 1] == '\n' {
      LastVisibleMeans(s[..|s| - 1]);
    }
  }

  lemma {:induction false} TokenIs(s: string, i: nat)
    requires i <= |s| && forall k | 0 <= k < i :: !Decisive(s[k])
    ensures match TokenAt(s, i)
            case None => forall k | 0 <= k < |s| :: s[k] == '\n'
            case Some(n) =>
              || (Decisive(s[n]) && forall k | 0 <= k < n :: !Decisive(s[k]))
              || ((forall k | 0 <= k < |s| :: !Decisive(s[k])) && s[n] != '\n' && forall k | n < k < |s| :: s[k] == '\n')
    decreases |s| - i
  {
    if i == |s| {
      LastVisibleMeans(s);
    } else if !Decisive(s[i]) {
      TokenIs(s, i + 1);
    }
  }

  lemma NewlineHop(lines: seq<string>, l: nat, pos: nat)
    requires l < |lines| && forall k | pos <= k < |lines[l]| :: lines[l][k] == '\n'
    ensures HopFrom(lines, l, pos) == Next(l + 1, 0)
  {
    var t := From(lines[l], pos);
    assert forall k | 0 <= k < |t| :: t[k] == lines[l][pos + k];
    TokenIs(t, 0);
    LastVisibleMeans(t);
    hide TokenAt, HopAt;
  }

  /** From a line without decisive characters the hop leads to the next line, or to newlines. */
  lemma QuietHop(lines: seq<string>, l: nat, pos: nat)
    requires l < |lines| && forall k | pos <= k < |lines[l]| :: !Decisive(lines[l][k])
    ensures var hop := HopFrom(lines, l, pos);
            || hop == Next(l + 1, 0)
            || (hop.Next? && hop.l == l && forall k | hop.pos <= k < |lines[l]| :: lines[l][k] == '\n')
  {
    var t := From(lines[l], pos);
    assert forall k | 0 <= k < |t| :: t[k] == lines[l][pos + k];
    TokenIs(t, 0);
    hide TokenAt, Close;
    var n := TokenAt(t);
    if n.Some? {
      var q := pos + n.value;
      assert forall k | q < k < |lines[l]| :: lines[l][k] == t[k - pos];
    }
  }

  /** A line without a decisive character from the position on is passed over. */
  lemma QuietLine(lines: seq<string>, l: nat, pos: nat)
    requires l < |lines| && forall k | pos <= k < |lines[l]| :: !Decisive(lines[l][k])
    ensures InTemplate(lines, l, pos) == InTemplate(lines, l + 1, 0)
  {
    hide HopFrom, InTemplate, Decisive;
    QuietHop(lines, l, pos);
    var hop := HopFrom(lines, l, pos);
    OneHop(lines, l, pos, hop);
    if hop != Next(l + 1, 0) {
      NewlineHop(lines, l, hop.pos);
      OneHop(lines, l, hop.pos, Next(l + 1, 0));
    }
  }

  /** There is no decisive character from one position up to another. */
  ghost predicate Quiet(lines: seq<string>, l: nat, pos: nat, m: nat, q: nat)
    requires l <= m < |lines| && q <= |lines[m]|
    decreases m - l
  {
    if l == m then forall k | pos <= k < q :: !Decisive(lines[l][k])
    else (forall k | pos <= k < |lines[l]| :: !Decisive(lines[l][k])) && Quiet(lines, l + 1, 0, m, q)
  }

  /** What a decisive character says. */
  ghost predicate Says(lines: seq<string>, m: nat, q: nat)
    requires m < |lines| && q < |lines[m]|
  {
    var c := lines[m][q];
    if c == '<' then
      var p := Close(lines, m, q);
      p.1 >= 0 && InTemplate(lines, p.0, p.1)
    else c in ">=[]."
  }

  lemma TokenDecisive(s: string, n: nat)
    requires n < |s| && Decisive(s[n]) && forall k | 0 <= k < n :: !Decisive(s[k])
    ensures TokenAt(s) == Some(n)
  {
    TokenIs(s, 0);
  }

  lemma DecidesHere(lines: seq<string>, l: nat, pos: nat, q: nat)
    requires l < |lines| && pos <= q < |lines[l]| && Decisive(lines[l][q])
    requires forall k | pos <= k < q :: !Decisive(lines[l][k])
    ensures InTemplate(lines, l, pos) <==> Says(lines, l, q)
  {
    var t := From(lines[l], pos);
    assert forall k | 0 <= k < |t| :: t[k] == lines[l][pos + k];
    TokenDecisive(t, q - pos);
    hide TokenAt, InTemplate, Close, From;
    var hop := HopAt(lines, l, q);
    assert HopFrom(lines, l, pos) == hop;
    OneHop(lines, l, pos, hop);
  }

  /** The first decisive character from the position on, over any number of lines, decides: a
      brace or a semicolon says no, an equals sign, a period, a square bracket or `>` says yes,
      and `<` says no if it has no partner, and otherwise leaves it to the text after that. */
  lemma {:induction false} FirstDecisive(lines: seq<string>, l: nat, pos: nat, m: nat, q: nat)
    requires l <= m < |lines| && q < |lines[m]| && Decisive(lines[m][q]) && (l == m ==> pos <= q)
    requires Quiet(lines, l, pos, m, q)
    ensures InTemplate(lines, l, pos) <==> Says(lines, m, q)
    decreases m - l
  {
    hide Says, InTemplate, Decisive;
    if l == m {
      DecidesHere(lines, l, pos, q);
    } else {
      QuietLine(lines, l, pos);
      FirstDecisive(lines, l + 1, 0, m, q);
    }
  }

  /** Without a decisive character up to the end of the file the answer is no. */
  lemma {:induction false} NothingDecides(lines: seq<string>, l: nat, pos: nat)
    requires l < |lines| ==> Quiet(lines, l, pos, |lines| - 1, |lines[|lines| - 1]|)
    ensures !InTemplate(lines, l, pos)
    decreases |lines| - l
  {
    if l < |lines| {
      QuietLine(lines, l, pos);
      NothingDecides(lines, l + 1, 0);
    }
  }
}
