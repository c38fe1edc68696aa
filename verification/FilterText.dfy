/** What the filter lists and the lines of a configuration file say, as text, and which
    directories are looked at. */
module FilterText {
  import opened Chars
  import opened Filters

  ghost predicate AppliesAs(f: string, category: string, prefix: string, rest: string) {
    (f == "+" + prefix || f == "-" + prefix) && category == prefix + rest
  }

  /** A filter is a sign and the beginning of the categories that it applies to. */
  lemma AppliesIff(f: string, category: string)
    ensures Applies(f, category) <==> exists prefix, rest :: AppliesAs(f, category, prefix, rest)
  {
    if Applies(f, category) {
      var prefix := f[1..];
      assert f == [f[0]] + prefix;
      assert category == prefix + category[|prefix|..];
      assert AppliesAs(f, category, prefix, category[|prefix|..]);
    }
    forall prefix, rest | AppliesAs(f, category, prefix, rest)
      ensures Applies(f, category)
    {
      assert f[1..] == prefix && category[..|prefix|] == prefix;
    }
  }

  // ----- comma separated lists

  function Commas(pieces: seq<string>): string {
    if pieces == [] then ""
    else if |pieces| == 1 then pieces[0]
    else pieces[0] + ("," + Commas(pieces[1..]))
  }

  /** Splitting undoes the joining with commas of pieces that have none. */
  lemma {:induction false} SplitIs(pieces: seq<string>)
    requires pieces != [] && forall k | 0 <= k < |pieces| :: ',' !in pieces[k]
    ensures Split(Commas(pieces)) == pieces
    decreases |pieces|
  {
    var first := pieces[0];
    if |pieces| == 1 {
      FindChar(first, ',');
      assert pieces == [first];
    } else {
      var rest := Commas(pieces[1..]);
      FindCharIs(first, ',', rest);
      SplitIs(pieces[1..]);
      hide Find;
      assert pieces == [first] + pieces[1..];
    }
  }

  /** Every text is joined from the pieces it is split into, and these have no commas. */
  lemma {:induction false} SplitMeans(s: string)
    ensures Split(s) != [] && Commas(Split(s)) == s
    ensures forall k | 0 <= k < |Split(s)| :: ',' !in Split(s)[k]
    decreases |s|
  {
    FindChar(s, ',');
    var comma := Find(s, ",", 0);
    if comma >= 0 {
      hide Find;
      var rest := s[comma + 1..];
      SplitMeans(rest);
      assert Split(s) == [s[..comma]] + Split(rest) && Split(s)[1..] == Split(rest);
      assert s == s[..comma] + ("," + rest);
    }
  }

  /** The filters are the pieces that are not blank, in their order, without blanks at their
      ends; `kept` are their positions. */
  ghost predicate Keeps(pieces: seq<string>, kept: seq<nat>, items: seq<string>) {
    && |items| == |kept|
    && (forall j | 0 <= j < |kept| :: kept[j] < |pieces| && items[j] == Strip(pieces[kept[j]]) && items[j] != [])
    && (forall i, j | 0 <= i < j < |kept| :: kept[i] < kept[j])
    && (forall k | 0 <= k < |pieces| && Strip(pieces[k]) != [] :: k in kept)
  }

  lemma {:induction false} CleanedMeans(pieces: seq<string>) returns (kept: seq<nat>)
    ensures Keeps(pieces, kept, Cleaned(pieces))
    decreases |pieces|
  {
    hide Strip;
    kept := [];
    if pieces != [] {
      var n := |pieces| - 1;
      kept := CleanedMeans(pieces[..n]);
      if Strip(pieces[n]) != [] {
        kept := kept + [n];
      }
    }
  }

  // ----- configuration lines

  ghost predicate Uncommented(line: string, text: string) {
    '#' !in text && (line == text || exists comment :: line == text + ("#" + comment))
  }

  /** A name with blanks around it, and nothing else or an equals sign and a value with blanks
      around it. */
  ghost predicate Assigns(text: string, name: string, value: string) {
    exists left, right ::
      '=' !in left && Padded(left, name) && Padded(right, value) &&
      (text == left + ("=" + right) || (text == left && right == ""))
  }

  ghost predicate Padded(s: string, t: string) {
    Tight(t) && exists a, b :: s == a + t + b && Blanks(a) && Blanks(b)
  }

  lemma PaddedIs(s: string, t: string)
    ensures Padded(s, t) <==> Strip(s) == t
  {
    hide Strip;
    var a, b := StripMeans(s);
    forall a, b | Padded(s, t) && s == a + t + b && Blanks(a) && Blanks(b)
      ensures Strip(s) == t
    {
      StripIs(a, t, b);
    }
  }

  lemma BeforeAfter(s: string, c: char)
    ensures var left, right := Before(s, [c]), After(s, [c]);
            c !in left && if c in s then s == left + ([c] + right) else s == left && right == ""
  {
    FindChar(s, c);
  }

  lemma BeforeAfterIs(left: string, c: char, right: string)
    requires c !in left
    ensures Before(left + ([c] + right), [c]) == left && After(left + ([c] + right), [c]) == right
    ensures Before(left, [c]) == left && After(left, [c]) == ""
  {
    FindCharIs(left, c, right);
    FindChar(left, c);
  }

  lemma TextIs(line: string, text: string)
    ensures Uncommented(line, text) <==> Before(line, "#") == text
  {
    hide Before;
    BeforeAfter(line, '#');
    if Uncommented(line, text) {
      if line == text {
        BeforeAfterIs(text, '#', "");
      } else {
        var comment :| line == text + ("#" + comment);
        BeforeAfterIs(text, '#', comment);
      }
    }
    hide After;
  }

  lemma BlankIff(text: string)
    ensures Strip(text) == [] <==> Blanks(text)
  {
    hide Strip;
    var a, b := StripMeans(text);
    if Blanks(text) {
      assert text + "" + "" == text;
      StripIs(text, "", "");
    }
  }

  lemma AssignsIs(text: string, name: string, value: string)
    ensures Assigns(text, name, value) <==> Strip(Before(text, "=")) == name && Strip(After(text, "=")) == value
  {
    hide Before, After, Strip, Padded;
    var l, r := Before(text, "="), After(text, "=");
    BeforeAfter(text, '=');
    PaddedIs(l, name);
    PaddedIs(r, value);
    forall left, right | '=' !in left && (text == left + ("=" + right) || (text == left && right == ""))
      ensures left == l && right == r
    {
      BeforeAfterIs(left, '=', right);
    }
  }

  /** The line says something: `name` is set to `value`. */
  ghost predicate Says(line: string, name: string, value: string) {
    exists text :: Uncommented(line, text) && !Blanks(text) && Assigns(text, name, value)
  }

  lemma SaysIs(line: string, name: string, value: string)
    ensures Says(line, name, value) <==>
            var text := Before(line, "#");
            Strip(text) != [] && Strip(Before(text, "=")) == name && Strip(After(text, "=")) == value
  {
    hide Before, After, Strip, Uncommented, Assigns, Blanks;
    var t := Before(line, "#");
    TextIs(line, t);
    BlankIff(t);
    AssignsIs(t, name, value);
    forall text | Uncommented(line, text)
      ensures text == t
    {
      TextIs(line, text);
    }
  }

  /** What a configuration line means, in terms of its text. */
  lemma SettingIff(line: string, value: string)
    ensures SettingOf(line) == Filter(value) <==> Says(line, "filter", value)
    ensures SettingOf(line) == ExcludeFiles(value) <==> Says(line, "exclude_files", value)
    ensures SettingOf(line) == NoParent <==> exists v :: Says(line, "set noparent", v)
    ensures SettingOf(line) == Nothing <==> exists text :: Uncommented(line, text) && Blanks(text)
  {
    hide Before, After, Strip, Uncommented, Blanks, Says;
    var text := Before(line, "#");
    var v := Strip(After(text, "="));
    SaysIs(line, "filter", value);
    SaysIs(line, "exclude_files", value);
    SaysIs(line, "set noparent", v);
    forall w | Says(line, "set noparent", w)
      ensures w == v && SettingOf(line) == NoParent
    {
      SaysIs(line, "set noparent", w);
    }
    TextIs(line, text);
    BlankIff(text);
    forall t | Uncommented(line, t)
      ensures t == text
    {
      TextIs(line, t);
    }
  }

  // ----- the directories

  /** The first `n` directories are looked at: none is the root, the search stops at none
      before the last, and it stops after it. */
  ghost predicate LooksAt(levels: seq<Level>, n: nat) {
    && n <= |levels|
    && (forall k | 0 <= k < n :: levels[k].baseName != [])
    && (forall k | 0 <= k < n - 1 :: !StopsAt(levels[k]))
    && (n == |levels| || levels[n].baseName == [] || (n > 0 && StopsAt(levels[n - 1])))
  }

  lemma {:induction false} ReachedMeans(levels: seq<Level>)
    ensures var n := |Reached(levels)|; LooksAt(levels, n) && Reached(levels) == levels[..n]
    decreases |levels|
  {
    hide StopsAt;
    if levels != [] && levels[0].baseName != [] && !StopsAt(levels[0]) {
      ReachedMeans(levels[1..]);
      var n := |Reached(levels[1..])|;
      assert levels[..n + 1] == [levels[0]] + levels[1..][..n];
      forall k | 1 <= k <= n
        ensures levels[k].baseName != [] && (k < n ==> !StopsAt(levels[k]))
      {
        assert levels[1..][k - 1] == levels[k];
      }
    }
  }
}
