/** What the patterns of the nesting tracker accept, in terms of the text of the line. */
module NestingLines {
  import opened Chars
  import TemplateArgs
  import opened Nesting
  import opened BranchErasure
  import D = NestingDepth
  import E = NestingEvents

  // ----- directives

  predicate WordEnds(t: string) {
    t == [] || !IsWord(t[0])
  }

  predicate AllWord(w: string) {
    w != [] && forall k | 0 <= k < |w| :: IsWord(w[k])
  }

  /** The line is a hash sign and the word `w`, with blanks before and between them, and the
      word ends there. */
  ghost predicate Hashed(line: string, w: string) {
    exists a, b, t :: HashedAs(line, w, a, b, t)
  }

  ghost predicate HashedAs(line: string, w: string, a: string, b: string, t: string) {
    Blanks(a) && Blanks(b) && WordEnds(t) && line == a + ("#" + (b + (w + t)))
  }

  /** The word after the hash sign, as the code finds it. */
  function WordOf(line: string): Option<string> {
    var t := LStrip(line);
    if t == [] || t[0] != '#' then None
    else
      var u := LStrip(t[1..]);
      Some(u[..Span(u, IsWord)])
  }

  lemma WordRead(line: string, w: string, a: string, b: string, t: string)
    requires AllWord(w) && HashedAs(line, w, a, b, t)
    ensures WordOf(line) == Some(w)
  {
    var u := w + t;
    LStripIs(a, "#" + (b + u));
    assert ("#" + (b + u))[1..] == b + u;
    assert IsWord(u[0]) && !IsSpace(u[0]);
    LStripIs(b, u);
    SpanIs(u, IsWord, |w|);
    assert u[..|w|] == w;
  }

  lemma WordFound(line: string, w: string)
    requires WordOf(line) == Some(w)
    ensures Hashed(line, w)
  {
    var a := LStripMeans(line);
    var rest := LStrip(line);
    var b := LStripMeans(rest[1..]);
    var u := LStrip(rest[1..]);
    SpanParts(u, IsWord);
    var t := u[|w|..];
    assert rest == "#" + rest[1..];
    assert HashedAs(line, w, a, b, t);
  }

  lemma HashedIff(line: string, w: string)
    requires AllWord(w)
    ensures Hashed(line, w) <==> WordOf(line) == Some(w)
  {
    hide WordOf;
    if Hashed(line, w) {
      var a, b, t :| HashedAs(line, w, a, b, t);
      WordRead(line, w, a, b, t);
    } else if WordOf(line) == Some(w) {
      WordFound(line, w);
    }
  }

  lemma DirectiveByWord(line: string)
    ensures var w := WordOf(line);
            DirectiveOf(line) ==
            if w == Some("if") || w == Some("ifdef") || w == Some("ifndef") then If
            else if w == Some("else") || w == Some("elif") then Else
            else if w == Some("endif") then Endif
            else Other
  {
  }

  /** For every line: a directive is what its text says, and every other line is none. */
  lemma DirectiveIff(line: string)
    ensures DirectiveOf(line) == If <==> Hashed(line, "if") || Hashed(line, "ifdef") || Hashed(line, "ifndef")
    ensures DirectiveOf(line) == Else <==> Hashed(line, "else") || Hashed(line, "elif")
    ensures DirectiveOf(line) == Endif <==> Hashed(line, "endif")
  {
    hide WordOf, DirectiveOf, Hashed;
    DirectiveByWord(line);
    HashedIff(line, "if");
    HashedIff(line, "ifdef");
    HashedIff(line, "ifndef");
    HashedIff(line, "else");
    HashedIff(line, "elif");
    HashedIff(line, "endif");
  }

  // ----- namespaces

  /** The line is the word namespace, a name and a rest, with blanks before the first two; the
      name may be missing, and is as long as can be. */
  ghost predicate NamespaceAs(line: string, name: string, rest: string, a: string, b: string) {
    && Blanks(a) && Blanks(b)
    && line == a + ("namespace" + (b + (name + rest)))
    && WordEnds(b + (name + rest))
    && (forall k | 0 <= k < |name| :: name[k] == ':' || IsWord(name[k]))
    && (rest == [] || (rest[0] != ':' && !IsWord(rest[0])))
    && (name == [] && rest != [] ==> !IsSpace(rest[0]))
  }

  lemma SuffixHasNoNewline(a: string, b: string)
    requires '\n' !in a + b
    ensures '\n' !in b
  {
    assert forall k | 0 <= k < |b| :: b[k] == (a + b)[|a| + k];
  }

  lemma AllOfLine(s: string)
    requires '\n' !in s
    ensures DotStar(s) == Some(s)
  {
  }

  /** The parts of a declaration, as the code finds them. */
  lemma NamespaceParts(line: string, name: string, rest: string)
    ensures NamespaceDecl(line) == Some((name, rest)) <==>
            var t := LStrip(line);
            && StartsWith(t, "namespace") && WordEnds(t[9..])
            && var u := LStrip(t[9..]);
            && name == u[..Span(u, NameChar)] && DotStar(u[Span(u, NameChar)..]) == Some(rest)
  {
    hide LStrip, Span, DotStar;
    var t := LStrip(line);
    assert |t| > 9 ==> t[9..][0] == t[9];
    assert |t| >= 9 ==> (|t| == 9 <==> t[9..] == []);
  }

  lemma NamespaceRead(line: string, name: string, rest: string, a: string, b: string)
    requires '\n' !in line && NamespaceAs(line, name, rest, a, b)
    ensures NamespaceDecl(line) == Some((name, rest))
  {
    var u := name + rest;
    var t := "namespace" + (b + u);
    NamespaceParts(line, name, rest);
    hide NamespaceDecl, LStrip, Span, DotStar;
    assert t[0] == "namespace"[0] == 'n';
    LStripIs(a, t);
    assert t[..9] == "namespace" && t[9..] == b + u;
    assert u != [] ==> !IsSpace(u[0]);
    LStripIs(b, u);
    SpanIs(u, NameChar, |name|);
    assert u[..|name|] == name && u[|name|..] == rest;
    SuffixHasNoNewline(a, t);
    SuffixHasNoNewline("namespace", b + u);
    SuffixHasNoNewline(b, u);
    SuffixHasNoNewline(name, rest);
    AllOfLine(rest);
  }

  lemma NamespaceFound(line: string, name: string, rest: string)
    requires '\n' !in line && NamespaceDecl(line) == Some((name, rest))
    ensures exists a, b :: NamespaceAs(line, name, rest, a, b)
  {
    NamespaceParts(line, name, rest);
    hide NamespaceDecl, LStrip, Span, DotStar;
    var a := LStripMeans(line);
    var t := LStrip(line);
    assert t == "namespace" + t[9..];
    var b := LStripMeans(t[9..]);
    var u := LStrip(t[9..]);
    SpanParts(u, NameChar);
    var n := Span(u, NameChar);
    SuffixHasNoNewline(a, t);
    SuffixHasNoNewline("namespace", b + u);
    SuffixHasNoNewline(b, u);
    SuffixHasNoNewline(u[..n], u[n..]);
    AllOfLine(u[n..]);
    assert NamespaceAs(line, name, rest, a, b);
  }

  /** For every line without a newline: it declares a namespace exactly when its text does. */
  lemma NamespaceIff(line: string, name: string, rest: string)
    requires '\n' !in line
    ensures NamespaceDecl(line) == Some((name, rest)) <==> exists a, b :: NamespaceAs(line, name, rest, a, b)
  {
    hide NamespaceDecl;
    if NamespaceDecl(line) == Some((name, rest)) {
      NamespaceFound(line, name, rest);
    }
    if a, b :| NamespaceAs(line, name, rest, a, b) {
      NamespaceRead(line, name, rest, a, b);
    }
  }

  /** The line is blanks, the word namespace, blanks, a name, text without a brace, an opening
      brace, and more text. */
  ghost predicate OpensNamespace(line: string, name: string, a: string, b: string, c: string, more: string) {
    && '\n' !in line && line == a + ("namespace" + (b + (name + (c + ("{" + more)))))
    && Blanks(a) && Blanks(b) && b != []
    && name != [] && (forall k | 0 <= k < |name| :: name[k] == ':' || IsWord(name[k]))
    && '{' !in c && (c != [] ==> c[0] != ':' && !IsWord(c[0]))
  }

  lemma OpenedIsDeclared(line: string, name: string, a: string, b: string, c: string, more: string)
    requires OpensNamespace(line, name, a, b, c, more)
    ensures NamespaceDecl(line) == Some((name, c + ("{" + more)))
    ensures Find(c + ("{" + more), "{", 0) == |c| && (c + ("{" + more))[|c| + 1..] == more
    ensures DirectiveOf(line) == Other && '\n' !in more
  {
    hide NamespaceDecl, DirectiveOf, Find;
    var rest := c + ("{" + more);
    assert rest[0] == if c == [] then '{' else c[0];
    var u := b + (name + rest);
    assert u[0] == b[0];
    assert NamespaceAs(line, name, rest, a, b);
    NamespaceRead(line, name, rest, a, b);
    FindCharIs(c, '{', more);
    assert ("namespace" + u)[0] == "namespace"[0] == 'n';
    NoHash(a, "namespace" + u);
    SuffixHasNoNewline(a, "namespace" + u);
    SuffixHasNoNewline("namespace", u);
    SuffixHasNoNewline(b, name + rest);
    SuffixHasNoNewline(name, rest);
    SuffixHasNoNewline(c, "{" + more);
    SuffixHasNoNewline("{", more);
  }

  lemma NoHash(a: string, t: string)
    requires Blanks(a) && t != [] && !IsSpace(t[0]) && t[0] != '#'
    ensures DirectiveOf(a + t) == Other
  {
    LStripIs(a, t);
  }

  /** Such a line pushes an open namespace of that name, and is then read on after the brace. */
  lemma NamespacePushed(l: nat, line: string, s: Stack, name: string, a: string, b: string, c: string, more: string)
    requires OpensNamespace(line, name, a, b, c, more)
    ensures ConsumeNamespaces(l, line, s) ==
            ConsumeNamespaces(l, more, s + [NewBlock(Namespace(name, l)).(seenOpenBrace := true)])
    ensures E.Namespaces(l, line).0 == [E.Declared(Namespace(name, l)), E.Open(false)] + E.Namespaces(l, more).0
  {
    hide OpensNamespace, NamespaceDecl, Find;
    OpenedIsDeclared(line, name, a, b, c, more);
  }

  /** After Update of such a line, with nothing else declared on it and no more braces closed
      than opened, the namespace is open on top of the blocks from before. */
  lemma NamespaceOnStack(f: File, l: nat, st: State, name: string, a: string, b: string, c: string, more: string)
    requires l < |f.elided| && l < |f.raw| && SeenOpenBrace(st.stack)
    requires OpensNamespace(f.elided[l], name, a, b, c, more)
    requires NamespaceDecl(more) == None && f.patterns.classDecl(more) == None && D.Room(more, 0)
    ensures var r := Update(f, l, st).stack;
            && |r| == |st.stack| + 1 + D.Net(more) > |st.stack|
            && D.SameCores(r[..|st.stack|], st.stack)
            && r[|st.stack|].kind == Namespace(name, l) && r[|st.stack|].seenOpenBrace
  {
    hide OpensNamespace, NamespaceDecl, Find, D.Room, D.Net, Update, D.Begun, DirectiveOf, D.SameCores;
    OpenedIsDeclared(f.elided[l], name, a, b, c, more);
    assert more + "" == more;
    NoLines(f, Update(f, l, st));
    D.NamespaceBegins(f, l, [], st, '{', more);
    D.DeclaredBlockOpens(f, l, [], st, st.stack, Namespace(name, l), more);
  }

  lemma NoLines(f: File, st: State)
    ensures LineNumbers(f, []) && D.PlainLines(f, []) && D.Text(f, []) == "" && Run(f, [], st) == st
  {
  }

  // ----- tokens

  /** The first token of a line, and what follows it. */
  lemma TokenIff(line: string, token: char, rest: string)
    requires '\n' !in line
    ensures BraceToken(line) == Some((token, rest)) <==>
            token in "{;)}" && exists head :: line == head + ([token] + rest) && forall k | 0 <= k < |head| :: head[k] !in "{;)}"
    ensures BraceToken(line) == None <==> forall k | 0 <= k < |line| :: line[k] !in "{;)}"
  {
    SpanParts(line, NotToken);
    var n := Span(line, NotToken);
    if n < |line| {
      assert line == line[..n] + ([line[n]] + line[n + 1..]);
      assert '\n' !in line[n + 1..];
    }
    if head :| line == head + ([token] + rest) && token in "{;)}" && forall k | 0 <= k < |head| :: head[k] !in "{;)}" {
      assert line[|head|] == token && forall k | 0 <= k < |head| :: line[k] == head[k];
      SpanIs(line, NotToken, |head|);
      assert line[|head| + 1..] == rest;
    }
  }

  ghost predicate ExternAs(line: string, b: string, s: string, c: string, more: string) {
    Blanks(b) && Blanks(c) && '"' !in s && line == "extern" + (b + ("\"" + (s + ("\"" + (c + ("{" + more))))))
  }

  lemma ExternParts(line: string)
    ensures ExternBrace(line) <==>
            && StartsWith(line, "extern")
            && var t := LStrip(line[6..]);
            && t != [] && t[0] == '"' && Span(t[1..], NoQuote) < |t[1..]|
            && var u := LStrip(t[1..][Span(t[1..], NoQuote) + 1..]);
            && u != [] && u[0] == '{'
  {
    hide LStrip, Span;
  }

  lemma QuotedSpan(s: string, v: string)
    requires '"' !in s
    ensures var u := s + ("\"" + v); Span(u, NoQuote) == |s| < |u| && u[|s| + 1..] == v
  {
    SpanIs(s + ("\"" + v), NoQuote, |s|);
  }

  lemma ExternRead(line: string, b: string, s: string, c: string, more: string)
    requires ExternAs(line, b, s, c, more)
    ensures ExternBrace(line)
  {
    ExternParts(line);
    hide ExternBrace, LStrip, Span;
    var v := c + ("{" + more);
    var u := s + ("\"" + v);
    var t := "\"" + u;
    assert line[..6] == "extern" && line[6..] == b + t;
    LStripIs(b, t);
    assert t[1..] == u;
    QuotedSpan(s, v);
    LStripIs(c, "{" + more);
  }

  lemma ExternFound(line: string)
    requires ExternBrace(line)
    ensures exists b, s, c, more :: ExternAs(line, b, s, c, more)
  {
    ExternParts(line);
    hide ExternBrace, LStrip, Span;
    var b := LStripMeans(line[6..]);
    var t := LStrip(line[6..]);
    var u := t[1..];
    SpanParts(u, NoQuote);
    var n := Span(u, NoQuote);
    var c := LStripMeans(u[n + 1..]);
    var v := LStrip(u[n + 1..]);
    assert line == "extern" + line[6..];
    assert t == "\"" + u;
    assert u == u[..n] + ("\"" + u[n + 1..]);
    assert v == "{" + v[1..];
    assert '"' !in u[..n];
    assert ExternAs(line, b, u[..n], c, v[1..]);
  }

  /** A brace starts a block for C linkage exactly after `extern` and a quoted string. */
  lemma ExternIff(line: string)
    ensures ExternBrace(line) <==> exists b, s, c, more :: ExternAs(line, b, s, c, more)
  {
    hide ExternBrace;
    if ExternBrace(line) {
      ExternFound(line);
    }
    if b, s, c, more :| ExternAs(line, b, s, c, more) {
      ExternRead(line, b, s, c, more);
    }
  }

  ghost predicate ColonAs(line: string, a: string, b: string) {
    line == a + (":" + b) && (a == [] || a[|a| - 1] != ':') && (b == [] || b[0] != ':')
  }

  lemma ColonRead(line: string, k: nat)
    requires k < |line| && ColonAt(line, k)
    ensures ColonAs(line, line[..k], line[k + 1..])
  {
    assert line == line[..k] + (":" + line[k + 1..]);
  }

  lemma ColonFound(line: string, a: string, b: string)
    requires ColonAs(line, a, b)
    ensures |a| < |line| && ColonAt(line, |a|)
  {
    assert b != [] ==> line[|a| + 1] == b[0];
  }

  /** A bare colon is one without another next to it. */
  lemma BareColonIff(line: string)
    ensures BareColon(line) <==> exists a, b :: ColonAs(line, a, b)
  {
    hide ColonAt, ColonAs;
    if BareColon(line) {
      var k :| 0 <= k < |line| && ColonAt(line, k);
      ColonRead(line, k);
    }
    if a, b :| ColonAs(line, a, b) {
      ColonFound(line, a, b);
    }
  }

  // ----- attributes of blocks

  /** The indent of a line is the number of blanks before its first other character, if that is
      no white space. */
  lemma IndentIs(n: nat, t: string, line: string)
    requires |line| == n + |t| && (forall k | 0 <= k < n :: line[k] == ' ') && line[n..] == t && (t != [] ==> t[0] != ' ')
    ensures IndentLevel(line) == if t != [] && !IsSpace(t[0]) then n else 0
  {
    assert t != [] ==> t[0] == line[n];
    SpanIs(line, IsBlank, n);
  }

  /** Members of a struct are public at first, those of a class private; a declared block is not
      open, and is at the indent of its line. */
  lemma NewClass(f: File, l: nat, name: string, isStruct: bool, d: ClassDecl, s: Stack)
    requires l < |f.elided| && l < |f.raw| && f.patterns.classDecl(f.elided[l]) == Some(d)
    requires d.name == name && d.isStruct == isStruct && (s == [] || Top(s).openParentheses == 0)
    requires !TemplateArgs.InTemplate(f.elided, l, d.headLength)
    ensures var b := Top(ConsumeClass(f, l, f.elided[l], s).1);
            && b.kind.Class? && b.kind.name == name && b.kind.startingLine == l
            && b.kind.indent == IndentLevel(f.raw[l])
            && b.access == (if isStruct then "public" else "private")
            && !b.seenOpenBrace && !b.isDerived && b.openParentheses == 0
  {
    hide TemplateArgs.InTemplate, LastLine, IndentLevel;
  }

  /** A block is inside assembly from the line on that opens its first parenthesis after an
      assembly keyword, until its parentheses are closed; the line that closes them is the end,
      and assembly blocks stay so. */
  lemma AsmLife(f: File, line: string, b: Block)
    ensures var r := Parenthesize(f, line, b);
            && r.openParentheses == b.openParentheses + Count(line, '(') - Count(line, ')')
            && (r.asm == InsideAsm <==>
                || (b.asm == InsideAsm && r.openParentheses != 0)
                || ((b.asm == NoAsm || b.asm == EndAsm) && r.openParentheses == 1 != b.openParentheses && f.patterns.asm(line)))
            && (r.asm == EndAsm <==> b.asm == InsideAsm && r.openParentheses == 0)
            && (r.asm == BlockAsm <==> b.asm == BlockAsm)
            && r == b.(openParentheses := r.openParentheses, asm := r.asm)
  {
    hide Count;
  }

  /** What else a line changes of the innermost block when it declares and closes nothing: a
      class takes on a new access, and is derived if it is not open and has a bare colon. */
  lemma AttributesChange(f: File, l: nat, st: State)
    requires l < |f.elided| && l < |f.raw| && st.stack != [] && DirectiveOf(f.elided[l]) == Other
    requires var line := f.elided[l];
             NamespaceDecl(line) == None && f.patterns.classDecl(line) == None && BraceToken(line) == None
    ensures var line := f.elided[l];
            var b, r := Top(st.stack), Top(Update(f, l, st).stack);
            && Update(f, l, st).stack == SetTop(st.stack, r)
            && r.kind == b.kind && r.seenOpenBrace == b.seenOpenBrace
            && r.openParentheses == Parenthesize(f, line, b).openParentheses && r.asm == Parenthesize(f, line, b).asm
            && (r.isDerived <==> b.isDerived || (b.kind.Class? && !b.seenOpenBrace && BareColon(line)))
            && r.access == (if b.kind.Class? && f.patterns.access(line).Some? then f.patterns.access(line).value else b.access)
  {
    hide DirectiveOf, NamespaceDecl, BraceToken, Parenthesize, BareColon;
    D.UpdateIs(f, l, st);
    var line := f.elided[l];
    var s := CountParentheses(f, line, st.stack);
    assert Declare(f, l, st.stack) == (line, s);
    assert ConsumeBraces(f, line, UpdateAccess(f, line, CheckBegin(line, s))) == UpdateAccess(f, line, CheckBegin(line, s));
    assert Top(s).kind == Top(st.stack).kind && Top(s).seenOpenBrace == Top(st.stack).seenOpenBrace by { ParenthesizeKeeps(f, line, Top(st.stack)); }
    ParenthesizeKeeps(f, line, Top(st.stack));
  }

  lemma ParenthesizeKeeps(f: File, line: string, b: Block)
    ensures var r := Parenthesize(f, line, b);
            r == b.(openParentheses := r.openParentheses, asm := r.asm)
  {
    hide Count;
  }

  lemma OneBrace(f: File, l: nat, st: State, rest: string)
    requires l < |f.elided| && l < |f.raw| && SeenOpenBrace(st.stack) && DirectiveOf(f.elided[l]) == Other
    requires var line := f.elided[l];
             && NamespaceDecl(line) == None && f.patterns.classDecl(line) == None && f.patterns.access(line) == None
             && BraceToken(line) == Some(('{', rest)) && BraceToken(rest) == None
    ensures var line := f.elided[l];
            var s := CountParentheses(f, line, st.stack);
            SeenOpenBrace(s) && |s| == |st.stack| && Update(f, l, st).stack == ConsumeToken(f, '{', line, s)
  {
    hide DirectiveOf, NamespaceDecl, BraceToken, Parenthesize, BareColon, ConsumeToken;
    D.UpdateIs(f, l, st);
    var line := f.elided[l];
    var s := CountParentheses(f, line, st.stack);
    if st.stack != [] {
      ParenthesizeKeeps(f, line, Top(st.stack));
    }
    assert Declare(f, l, st.stack) == (line, s);
    assert UpdateAccess(f, line, CheckBegin(line, s)) == s;
    assert ConsumeBraces(f, line, s) == ConsumeToken(f, '{', line, s);
  }

  /** A line without declarations whose only token is a brace, when the innermost block is open:
      it opens a block for C linkage after `extern`, and otherwise a plain one, which is one of
      assembly after an assembly keyword. */
  lemma BracePushes(f: File, l: nat, st: State, rest: string)
    requires l < |f.elided| && l < |f.raw| && SeenOpenBrace(st.stack) && DirectiveOf(f.elided[l]) == Other
    requires var line := f.elided[l];
             && NamespaceDecl(line) == None && f.patterns.classDecl(line) == None && f.patterns.access(line) == None
             && BraceToken(line) == Some(('{', rest)) && BraceToken(rest) == None
    ensures var line, r := f.elided[l], Update(f, l, st).stack;
            && |r| == |st.stack| + 1 && r[..|st.stack|] == CountParentheses(f, line, st.stack)
            && (Top(r).kind == ExternC <==> exists b, s, c, more :: ExternAs(line, b, s, c, more))
            && (Top(r).kind == Brace <==> Top(r).kind != ExternC)
            && (Top(r).asm == BlockAsm <==> Top(r).kind == Brace && f.patterns.asm(line))
            && Top(r).seenOpenBrace && Top(r).openParentheses == 0
  {
    hide DirectiveOf, NamespaceDecl, BraceToken, ExternBrace, CountParentheses, ExternAs, Update;
    OneBrace(f, l, st, rest);
    ExternIff(f.elided[l]);
  }
}
