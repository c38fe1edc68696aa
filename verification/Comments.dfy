/** The removal of C comments that span several lines. */
module Comments {
  import opened Chars

  const DUMMY: string := "// dummy"

  /** The line begins a comment that does not end on it. */
  predicate IsStart(line: string) {
    var t := Strip(line);
    StartsWith(t, "/*") && Find(t, "*/", 2) == -1
  }

  predicate IsEnd(line: string) {
    EndsWith(Strip(line), "*/")
  }

  ghost predicate StartAs(line: string, a: string, t: string) {
    line == a + ("/*" + t) && Blanks(a) && forall k: nat :: !At(t, "*/", k)
  }

  /** The line is blanks, the start of a comment, and text without an end of a comment. */
  lemma StartIff(line: string)
    ensures IsStart(line) <==> exists a, t :: StartAs(line, a, t)
  {
    hide Strip, Find;
    if IsStart(line) {
      var a, b := StripMeans(line);
      var s := Strip(line);
      var u := s[2..];
      assert s == "/*" + u;
      assert a + ("/*" + u) + b == a + ("/*" + (u + b));
      forall k: nat
        ensures !At(u + b, "*/", k)
      {
        NoEndAdded(u, b, k);
        EndShifted(u, k);
      }
      assert StartAs(line, a, u + b);
    }
    forall a, t | StartAs(line, a, t)
      ensures IsStart(line)
    {
      StartFound(line, a, t);
    }
  }

  lemma NoEndAdded(u: string, b: string, k: nat)
    requires Blanks(b)
    ensures At(u + b, "*/", k) ==> At(u, "*/", k)
  {
    if At(u + b, "*/", k) {
      assert (u + b)[k..k + 2][1] == (u + b)[k + 1] == '/';
      assert k + 1 < |u|;
      assert (u + b)[k..k + 2] == u[k..k + 2];
    }
  }

  lemma EndShifted(u: string, k: nat)
    ensures At("/*" + u, "*/", k + 2) <==> At(u, "*/", k)
  {
    if k + 2 <= |u| {
      assert ("/*" + u)[k + 2..k + 4] == u[k..k + 2];
    }
  }

  lemma StartFound(line: string, a: string, t: string)
    requires StartAs(line, a, t)
    ensures IsStart(line)
  {
    RStripMeaning(t);
    var u, b := RStrip(t), t[|RStrip(t)|..];
    var s := "/*" + u;
    hide RStrip, Strip;
    assert t == u + b;
    assert line == a + s + b;
    assert s[|s| - 1] == if u == [] then '*' else u[|u| - 1];
    StripIs(a, s, b);
    if Find(s, "*/", 2) != -1 {
      var k := Find(s, "*/", 2) - 2;
      EndKept(u, b, k);
      EndShifted(u, k);
    }
  }

  lemma EndKept(u: string, b: string, k: nat)
    ensures At(u, "*/", k) ==> At(u + b, "*/", k)
  {
    if k + 2 <= |u| {
      assert (u + b)[k..k + 2] == u[k..k + 2];
    }
  }

  ghost predicate EndAs(line: string, t: string, b: string) {
    line == t + "*/" + b && Blanks(b)
  }

  /** The line is any text, the end of a comment, and blanks. */
  lemma EndIff(line: string)
    ensures IsEnd(line) <==> exists t, b :: EndAs(line, t, b)
  {
    hide Strip;
    if IsEnd(line) {
      var a, b := StripMeans(line);
      var s := Strip(line);
      assert s == s[..|s| - 2] + "*/";
      assert a + (s[..|s| - 2] + "*/") + b == (a + s[..|s| - 2]) + "*/" + b;
      assert EndAs(line, a + s[..|s| - 2], b);
    }
    forall t, b | EndAs(line, t, b)
      ensures IsEnd(line)
    {
      var a := LStripMeans(t);
      var s := LStrip(t) + "*/";
      assert line == a + s + b;
      assert s[0] == if LStrip(t) == [] then '*' else LStrip(t)[0];
      StripIs(a, s, b);
    }
  }

  lemma DummyIsNoStart()
    ensures !IsStart(DUMMY)
  {
    assert DUMMY[|DUMMY| - 1] == 'y' && RStrip(DUMMY) == DUMMY;
    assert DUMMY[0] == '/' && LStrip(DUMMY) == DUMMY;
    assert DUMMY[..2][1] == '/' && "/*"[1] == '*';
  }

  /** The first line at or after `i` that satisfies the test, or the number of lines. */
  function NextStart(lines: seq<string>, i: nat): (r: nat)
    requires i <= |lines|
    ensures i <= r <= |lines|
    ensures r < |lines| ==> IsStart(lines[r])
    ensures forall k | i <= k < r :: !IsStart(lines[k])
    decreases |lines| - i
  {
    if i == |lines| || IsStart(lines[i]) then i else NextStart(lines, i + 1)
  }

  function NextEnd(lines: seq<string>, i: nat): (r: nat)
    requires i <= |lines|
    ensures i <= r <= |lines|
    ensures r < |lines| ==> IsEnd(lines[r])
    ensures forall k | i <= k < r :: !IsEnd(lines[k])
    decreases |lines| - i
  {
    if i == |lines| || IsEnd(lines[i]) then i else NextEnd(lines, i + 1)
  }

  function Fill(lines: seq<string>, begin: nat, end: nat): (r: seq<string>)
    requires begin <= end <= |lines|
    ensures |r| == |lines|
    ensures forall k | 0 <= k < |lines| :: r[k] == if begin <= k < end then DUMMY else lines[k]
  {
    lines[..begin] + seq(end - begin, _ => DUMMY) + lines[end..]
  }

  datatype Outcome = Outcome(lines: seq<string>, error: Option<nat>)

  /** What is left to do from line `i` on; an error carries the number of the line, counted
      from one, where an unfinished comment begins. */
  function Remove(lines: seq<string>, i: nat): (r: Outcome)
    requires i <= |lines|
    ensures |r.lines| == |lines|
    decreases |lines| - i
  {
    if i == |lines| then Outcome(lines, None)
    else
      var begin := NextStart(lines, i);
      if begin == |lines| then Outcome(lines, None)
      else
        var end := NextEnd(lines, begin);
        if end == |lines| then Outcome(lines, Some(begin + 1))
        else Remove(Fill(lines, begin, end + 1), end + 1)
  }

  /** One round of the loop. */
  lemma RemoveStep(lines: seq<string>, i: nat, begin: nat, end: nat)
    requires i < |lines| && begin == NextStart(lines, i) && end == NextEnd(lines, begin)
    ensures Remove(lines, i) ==
            if begin == |lines| then Outcome(lines, None)
            else if end == |lines| then Outcome(lines, Some(begin + 1))
            else Remove(Fill(lines, begin, end + 1), end + 1)
  {
    hide IsStart, IsEnd, Fill, NextStart, NextEnd;
    if begin < |lines| && end < |lines| {
      assert Remove(lines, i) == Remove(Fill(lines, begin, end + 1), end + 1);
    }
  }

  lemma RemoveDone(lines: seq<string>)
    ensures Remove(lines, |lines|) == Outcome(lines, None)
  {
  }

  // ----- in place

  method FindNextMultiLineCommentStart(lines: array<string>, lineix0: nat) returns (lineix: nat)
    requires lineix0 <= lines.Length
    ensures lineix == NextStart(lines[..], lineix0)
  {
    lineix := lineix0;
    while lineix < lines.Length
      invariant lineix0 <= lineix <= lines.Length
      invariant NextStart(lines[..], lineix0) == NextStart(lines[..], lineix)
    {
      if StartsWith(Strip(lines[lineix]), "/*") {
        if Find(Strip(lines[lineix]), "*/", 2) < 0 {
          return;
        }
      }
      lineix := lineix + 1;
    }
  }

  method FindNextMultiLineCommentEnd(lines: array<string>, lineix0: nat) returns (lineix: nat)
    requires lineix0 <= lines.Length
    ensures lineix == NextEnd(lines[..], lineix0)
  {
    lineix := lineix0;
    while lineix < lines.Length
      invariant lineix0 <= lineix <= lines.Length
      invariant NextEnd(lines[..], lineix0) == NextEnd(lines[..], lineix)
    {
      if EndsWith(Strip(lines[lineix]), "*/") {
        return;
      }
      lineix := lineix + 1;
    }
  }

  method RemoveMultiLineCommentsFromRange(lines: array<string>, begin: nat, end: nat)
    requires begin <= end <= lines.Length
    modifies lines
    ensures lines[..] == Fill(old(lines[..]), begin, end)
  {
    for i := begin to end
      invariant forall k | 0 <= k < lines.Length :: lines[k] == if begin <= k < i then DUMMY else old(lines[k])
    {
      lines[i] := DUMMY;
    }
  }

  method RemoveMultiLineComments(lines: array<string>) returns (error: Option<nat>)
    modifies lines
    ensures Outcome(lines[..], error) == Remove(old(lines[..]), 0)
  {
    hide IsStart, IsEnd, Fill, NextStart, NextEnd, Remove;
    var lineix := 0;
    while lineix < lines.Length
      invariant 0 <= lineix <= lines.Length
      invariant Remove(old(lines[..]), 0) == Remove(lines[..], lineix)
    {
      var begin := FindNextMultiLineCommentStart(lines, lineix);
      if begin < lines.Length {
        var end := FindNextMultiLineCommentEnd(lines, begin);
        RemoveStep(lines[..], lineix, begin, end);
        if end >= lines.Length {
          return Some(begin + 1);
        }
        RemoveMultiLineCommentsFromRange(lines, begin, end + 1);
        lineix := end + 1;
      } else {
        RemoveStep(lines[..], lineix, begin, NextEnd(lines[..], begin));
        return None;
      }
    }
    RemoveDone(lines[..]);
    return None;
  }

  // ----- what is removed

  /** Read line by line: a comment that began before line `k` has not ended before it. */
  predicate OpenBefore(lines: seq<string>, k: nat)
    requires k <= |lines|
  {
    k > 0 && (OpenBefore(lines, k - 1) || IsStart(lines[k - 1])) && !IsEnd(lines[k - 1])
  }

  /** Line `k` belongs to a comment, and there is an end at or after it. */
  ghost predicate InComment(lines: seq<string>, k: nat)
    requires k < |lines|
  {
    (OpenBefore(lines, k) || IsStart(lines[k])) && exists e :: k <= e < |lines| && IsEnd(lines[e])
  }

  lemma {:induction false} StaysClosed(lines: seq<string>, i: nat, j: nat)
    requires i <= j <= |lines| && !OpenBefore(lines, i) && forall k | i <= k < j :: !IsStart(lines[k])
    ensures !OpenBefore(lines, j)
  {
    hide IsStart, IsEnd;
    if i < j {
      StaysClosed(lines, i, j - 1);
    }
  }

  lemma {:induction false} StaysOpen(lines: seq<string>, begin: nat, j: nat)
    requires begin < j <= |lines| && IsStart(lines[begin]) && forall k | begin <= k < j :: !IsEnd(lines[k])
    ensures OpenBefore(lines, j)
  {
    hide IsStart, IsEnd;
    if begin + 1 < j {
      StaysOpen(lines, begin, j - 1);
    }
  }

  lemma {:induction false} OpenFrame(a: seq<string>, b: seq<string>, i: nat, j: nat)
    requires |a| == |b| && i <= j <= |a| && forall k | i <= k < j :: a[k] == b[k]
    requires OpenBefore(a, i) == OpenBefore(b, i)
    ensures OpenBefore(a, j) == OpenBefore(b, j)
  {
    hide IsStart, IsEnd;
    if i < j {
      OpenFrame(a, b, i, j - 1);
    }
  }

  /** Up to the end of the next comment, if it has one. */
  lemma NextComment(lines: seq<string>, i: nat, begin: nat, end: nat, k: nat)
    requires i <= k < |lines| && !OpenBefore(lines, i)
    requires begin == NextStart(lines, i) && end == NextEnd(lines, begin)
    requires k <= end
    ensures InComment(lines, k) <==> begin <= k && end < |lines|
  {
    hide IsStart, IsEnd;
    if k < begin {
      StaysClosed(lines, i, k);
    } else if begin < k {
      StaysOpen(lines, begin, k);
    }
  }

  lemma AfterComment(lines: seq<string>, filled: seq<string>, i: nat, begin: nat, end: nat)
    requires i <= begin <= end < |lines| && !OpenBefore(lines, i) && IsEnd(lines[end])
    requires forall k | i <= k < begin :: !IsStart(lines[k])
    requires filled == Fill(lines, begin, end + 1)
    ensures !OpenBefore(lines, end + 1) && !OpenBefore(filled, end + 1)
  {
    hide IsStart, IsEnd;
    OpenFrame(lines, filled, 0, i);
    DummyIsNoStart();
    StaysClosed(filled, i, end + 1);
  }

  /** Exactly the lines of closed comments are replaced. */
  lemma {:induction false} RemoveExactly(lines: seq<string>, i: nat, k: nat)
    requires i <= |lines| && k < |lines| && !OpenBefore(lines, i)
    ensures Remove(lines, i).lines[k] == if i <= k && InComment(lines, k) then DUMMY else lines[k]
    decreases |lines| - i
  {
    hide IsStart, IsEnd, NextStart, NextEnd, Remove, OpenBefore, InComment, Fill;
    if i == |lines| {
      RemoveDone(lines);
    } else {
      var begin := NextStart(lines, i);
      var end := NextEnd(lines, begin);
      RemoveStep(lines, i, begin, end);
      if i <= k <= end {
        NextComment(lines, i, begin, end, k);
      }
      if end < |lines| {
        var filled := Fill(lines, begin, end + 1);
        AfterComment(lines, filled, i, begin, end);
        RemoveExactly(filled, end + 1, k);
        if end < k {
          SameComments(lines, filled, end + 1, k);
        }
      }
    }
  }

  lemma SameComments(a: seq<string>, b: seq<string>, i: nat, k: nat)
    requires |a| == |b| && i <= k < |a| && forall j | i <= j < |a| :: a[j] == b[j]
    requires OpenBefore(a, i) == OpenBefore(b, i)
    ensures InComment(a, k) == InComment(b, k)
  {
    hide IsStart, IsEnd, OpenBefore;
    OpenFrame(a, b, i, k);
    assert forall e | k <= e < |a| :: IsEnd(a[e]) == IsEnd(b[e]);
  }

  /** No comment starts before line `n`. */
  ghost predicate NoStartBefore(lines: seq<string>, n: nat) {
    forall k | 0 <= k < n && k < |lines| :: !IsStart(lines[k])
  }

  /** After the removal no comment start is left, or the first one left is the reported
      one and no comment end follows it. */
  lemma {:induction false} RemoveLeaves(lines: seq<string>, i: nat)
    requires i <= |lines| && NoStartBefore(lines, i)
    ensures var r := Remove(lines, i);
            match r.error
            case None => NoStartBefore(r.lines, |lines|)
            case Some(n) =>
              && 1 <= n <= |lines|
              && NoStartBefore(r.lines, n - 1) && IsStart(r.lines[n - 1])
              && forall k | n - 1 <= k < |lines| :: !IsEnd(r.lines[k])
    decreases |lines| - i
  {
    hide IsStart, IsEnd, Fill, NextStart, NextEnd, Remove;
    DummyIsNoStart();
    if i == |lines| {
      RemoveDone(lines);
    } else {
      var begin := NextStart(lines, i);
      RemoveStep(lines, i, begin, NextEnd(lines, begin));
      if begin < |lines| {
        var end := NextEnd(lines, begin);
        if end < |lines| {
          RemoveLeaves(Fill(lines, begin, end + 1), end + 1);
        }
      }
    }
  }

  /** A second run changes nothing and reports the same line. */
  lemma RemoveTwice(lines: seq<string>)
    ensures Remove(Remove(lines, 0).lines, 0) == Remove(lines, 0)
  {
    hide IsStart, IsEnd, Fill, Remove;
    RemoveLeaves(lines, 0);
    var r := Remove(lines, 0);
    RemoveClean(r.lines, r.error);
  }

  lemma RemoveClean(lines: seq<string>, error: Option<nat>)
    requires match error
             case None => NoStartBefore(lines, |lines|)
             case Some(n) =>
               && 1 <= n <= |lines|
               && NoStartBefore(lines, n - 1) && IsStart(lines[n - 1])
               && forall k | n - 1 <= k < |lines| :: !IsEnd(lines[k])
    ensures Remove(lines, 0) == Outcome(lines, error)
  {
    hide IsStart, IsEnd, Fill;
    if error.Some? {
      assert NextStart(lines, 0) == error.value - 1;
      assert NextEnd(lines, error.value - 1) == |lines|;
    } else if lines != [] {
      assert NextStart(lines, 0) == |lines|;
    }
  }
}
