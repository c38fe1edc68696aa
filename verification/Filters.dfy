/** The error filters of the linter: default filters, command line, configuration files from
    the root directory down, and their removal after each file. */
module Filters {
  import opened Chars

  // ----- filter lists

  predicate Signed(f: string) {
    f != [] && (f[0] == '+' || f[0] == '-')
  }

  predicate AllSigned(fs: seq<string>) {
    forall k | 0 <= k < |fs| :: Signed(fs[k])
  }

  predicate Applies(f: string, category: string) {
    Signed(f) && StartsWith(category, f[1..])
  }

  /** The sign of the last filter that applies to a category, if any does. */
  function Decide(fs: seq<string>, category: string): Option<bool> {
    if fs == [] then None
    else
      var last := fs[|fs| - 1];
      if Applies(last, category) then Some(last[0] == '+') else Decide(fs[..|fs| - 1], category)
  }

  lemma {:induction false} DecideIsLast(fs: seq<string>, category: string, k: nat)
    requires k < |fs| && Applies(fs[k], category)
    requires forall j | k < j < |fs| :: !Applies(fs[j], category)
    ensures Decide(fs, category) == Some(fs[k][0] == '+')
    decreases |fs|
  {
    if k < |fs| - 1 {
      DecideIsLast(fs[..|fs| - 1], category, k);
    }
  }

  lemma {:induction false} DecideNone(fs: seq<string>, category: string)
    ensures Decide(fs, category) == None <==> forall j | 0 <= j < |fs| :: !Applies(fs[j], category)
    decreases |fs|
  {
    if fs != [] {
      DecideNone(fs[..|fs| - 1], category);
    }
  }

  /** Later filters override earlier ones. */
  lemma {:induction false} DecideConcat(a: seq<string>, b: seq<string>, category: string)
    ensures Decide(a + b, category) ==
            if Decide(b, category).Some? then Decide(b, category) else Decide(a, category)
    decreases |b|
  {
    if b == [] {
      assert a + b == a;
    } else {
      assert (a + b)[..|a + b| - 1] == a + b[..|b| - 1];
      DecideConcat(a, b[..|b| - 1], category);
    }
  }

  /** `s.split(',')` */
  function Split(s: string): seq<string>
    decreases |s|
  {
    var comma := Find(s, ",", 0);
    if comma == -1 then [s] else [s[..comma]] + Split(s[comma + 1..])
  }

  /** The pieces that are not blank, without blanks at the ends. */
  function Cleaned(pieces: seq<string>): seq<string> {
    if pieces == [] then []
    else
      var front, last := Cleaned(pieces[..|pieces| - 1]), Strip(pieces[|pieces| - 1]);
      if last != [] then front + [last] else front
  }

  /** The filters in a comma separated list. */
  function Items(s: string): seq<string> {
    Cleaned(Split(s))
  }

  const DEFAULT_FILTERS: seq<string> := ["-build/include_alpha"]

  // ----- configuration files

  /** One directory on the way to the root, with its entry on that way and its file. */
  datatype Level = Level(baseName: string, config: Config)

  datatype Config = Missing | Unreadable | Lines(lines: seq<string>)

  datatype Setting = Nothing | NoParent | Filter(value: string) | ExcludeFiles(pattern: string) | Other

  function Before(s: string, sep: string): string {
    var k := Find(s, sep, 0);
    if k == -1 then s else s[..k]
  }

  function After(s: string, sep: string): string {
    var k := Find(s, sep, 0);
    if k == -1 then "" else s[k + |sep|..]
  }

  /** A configuration line without its comment. */
  function SettingOf(line: string): Setting {
    var text := Before(line, "#");
    if Strip(text) == [] then Nothing
    else
      var name, value := Strip(Before(text, "=")), Strip(After(text, "="));
      if name == "set noparent" then NoParent
      else if name == "filter" then Filter(value)
      else if name == "exclude_files" then ExcludeFiles(value)
      else Other
  }

  /** What reading configuration files has found: the file is excluded, or the filters so
      far and whether the parent directory is to be looked at. */
  datatype Scan = Excluded | Going(filters: seq<string>, keepLooking: bool)

  function ScanLine(matches: (string, string) -> bool, baseName: string, line: string, s: Scan): Scan {
    match (s, SettingOf(line))
    case (Excluded, _) => Excluded
    case (Going(fs, k), NoParent) => Going(fs, false)
    case (Going(fs, k), Filter(v)) => Going(fs + [v], k)
    case (Going(fs, k), ExcludeFiles(p)) => if baseName != [] && matches(p, baseName) then Excluded else s
    case _ => s
  }

  function ScanLines(matches: (string, string) -> bool, baseName: string, lines: seq<string>, s: Scan): Scan {
    if lines == [] then s
    else ScanLine(matches, baseName, lines[|lines| - 1], ScanLines(matches, baseName, lines[..|lines| - 1], s))
  }

  function ScanLevel(matches: (string, string) -> bool, level: Level, s: Scan): Scan {
    match level.config
    case Missing => s
    case Unreadable => if s.Going? then s.(keepLooking := false) else s
    case Lines(lines) => ScanLines(matches, level.baseName, lines, s)
  }

  /** Reads the levels from the nearest directory to the root. */
  function ScanLevels(matches: (string, string) -> bool, levels: seq<Level>, s: Scan): Scan
    decreases |levels|
  {
    if s.Excluded? || !s.keepLooking || levels == [] || levels[0].baseName == [] then s
    else ScanLevels(matches, levels[1..], ScanLevel(matches, levels[0], s))
  }

  /** The filter values of one directory's file, in the order of its lines. */
  function ValuesOf(lines: seq<string>): seq<string> {
    if lines == [] then []
    else
      var front, last := ValuesOf(lines[..|lines| - 1]), SettingOf(lines[|lines| - 1]);
      if last.Filter? then front + [last.value] else front
  }

  function LevelValues(level: Level): seq<string> {
    if level.config.Lines? then ValuesOf(level.config.lines) else []
  }

  predicate StopsAt(level: Level) {
    match level.config
    case Missing => false
    case Unreadable => true
    case Lines(lines) => exists k :: 0 <= k < |lines| && SettingOf(lines[k]) == NoParent
  }

  /** The levels that are looked at: up to the first that stops the search, or the root. */
  function Reached(levels: seq<Level>): seq<Level> {
    if levels == [] || levels[0].baseName == [] then []
    else if StopsAt(levels[0]) then [levels[0]]
    else [levels[0]] + Reached(levels[1..])
  }

  function AllValues(levels: seq<Level>): seq<string> {
    if levels == [] then [] else LevelValues(levels[0]) + AllValues(levels[1..])
  }

  /** The filters that are added for a list of values: last value first. */
  function Added(values: seq<string>): seq<string> {
    if values == [] then [] else Added(values[1..]) + Items(values[0])
  }

  // ----- what the configuration files contribute

  predicate ExcludedBy(matches: (string, string) -> bool, baseName: string, line: string) {
    baseName != [] && SettingOf(line).ExcludeFiles? && matches(SettingOf(line).pattern, baseName)
  }

  lemma {:induction false} ScanLinesMeans(matches: (string, string) -> bool, baseName: string, lines: seq<string>, fs: seq<string>, keep: bool)
    ensures var r := ScanLines(matches, baseName, lines, Going(fs, keep));
            && (r.Excluded? <==> exists k :: 0 <= k < |lines| && ExcludedBy(matches, baseName, lines[k]))
            && (r.Going? ==> r.filters == fs + ValuesOf(lines))
            && (r.Going? ==> (r.keepLooking <==> keep && !exists k :: 0 <= k < |lines| && SettingOf(lines[k]) == NoParent))
    decreases |lines|
  {
    hide SettingOf;
    if lines != [] {
      var front, last := lines[..|lines| - 1], lines[|lines| - 1];
      ScanLinesMeans(matches, baseName, front, fs, keep);
      assert forall k | 0 <= k < |front| :: lines[k] == front[k];
      assert lines[|front|] == last;
      if SettingOf(last).Filter? {
        assert fs + (ValuesOf(front) + [SettingOf(last).value]) == fs + ValuesOf(front) + [SettingOf(last).value];
      }
      var r := ScanLines(matches, baseName, front, Going(fs, keep));
      if r.Excluded? {
        var k :| 0 <= k < |front| && ExcludedBy(matches, baseName, front[k]);
        assert ExcludedBy(matches, baseName, lines[k]);
      }
    }
  }

  /** A line of the directory's file excludes its entry on the way. */
  predicate LevelExcludes(matches: (string, string) -> bool, level: Level) {
    level.config.Lines? && exists k :: 0 <= k < |level.config.lines| && ExcludedBy(matches, level.baseName, level.config.lines[k])
  }

  predicate ExcludedIn(matches: (string, string) -> bool, levels: seq<Level>) {
    exists k :: 0 <= k < |levels| && LevelExcludes(matches, levels[k])
  }

  lemma LevelMeans(matches: (string, string) -> bool, level: Level, fs: seq<string>)
    ensures var r := ScanLevel(matches, level, Going(fs, true));
            && (r.Excluded? <==> LevelExcludes(matches, level))
            && (r.Going? ==> r.filters == fs + LevelValues(level) && (r.keepLooking <==> !StopsAt(level)))
  {
    hide SettingOf, ScanLines, ValuesOf;
    if level.config.Lines? {
      ScanLinesMeans(matches, level.baseName, level.config.lines, fs, true);
    }
  }

  lemma ExcludedFirst(matches: (string, string) -> bool, first: Level, rest: seq<Level>)
    ensures ExcludedIn(matches, [first] + rest) <==> LevelExcludes(matches, first) || ExcludedIn(matches, rest)
  {
    hide LevelExcludes;
    var all := [first] + rest;
    if LevelExcludes(matches, first) {
      assert all[0] == first;
    }
    if ExcludedIn(matches, rest) {
      var k :| 0 <= k < |rest| && LevelExcludes(matches, rest[k]);
      assert all[k + 1] == rest[k];
    }
    if ExcludedIn(matches, all) {
      var k :| 0 <= k < |all| && LevelExcludes(matches, all[k]);
      assert k > 0 ==> all[k] == rest[k - 1];
    }
  }

  /** The file is excluded exactly when a line in one of the reached directories says so. */
  lemma {:induction false} ExcludedMeans(matches: (string, string) -> bool, levels: seq<Level>, fs: seq<string>)
    ensures ScanLevels(matches, levels, Going(fs, true)).Excluded? <==> ExcludedIn(matches, Reached(levels))
    decreases |levels|
  {
    hide ScanLevel, LevelExcludes, StopsAt, ExcludedIn, LevelValues;
    if levels == [] || levels[0].baseName == [] {
      NoneExclude(matches);
    } else {
      var level := levels[0];
      LevelMeans(matches, level, fs);
      var r := ScanLevel(matches, level, Going(fs, true));
      if StopsAt(level) {
        ExcludedFirst(matches, level, []);
        NoneExclude(matches);
        assert [level] + [] == [level];
      } else {
        ExcludedFirst(matches, level, Reached(levels[1..]));
        if r.Going? {
          ExcludedMeans(matches, levels[1..], r.filters);
        }
      }
    }
  }

  lemma NoneExclude(matches: (string, string) -> bool)
    ensures !ExcludedIn(matches, [])
  {
  }

  /** Unless the file is excluded, the collected values are those of the reached levels, the
      nearest directory first. */
  lemma {:induction false} ScanLevelsMeans(matches: (string, string) -> bool, levels: seq<Level>, fs: seq<string>)
    ensures var r := ScanLevels(matches, levels, Going(fs, true));
            r.Going? ==> r.filters == fs + AllValues(Reached(levels))
    decreases |levels|
  {
    hide SettingOf, ScanLines, ValuesOf;
    if levels == [] || levels[0].baseName == [] {
      assert fs + [] == fs;
    } else {
      var level := levels[0];
      if level.config.Lines? {
        ScanLinesMeans(matches, level.baseName, level.config.lines, fs, true);
      }
      var r := ScanLevel(matches, level, Going(fs, true));
      if r.Going? {
        assert r.filters == fs + LevelValues(level);
        assert r.keepLooking <==> !StopsAt(level);
        if r.keepLooking {
          ScanLevelsMeans(matches, levels[1..], r.filters);
          assert Reached(levels) == [level] + Reached(levels[1..]);
          assert Reached(levels)[1..] == Reached(levels[1..]);
          assert fs + (LevelValues(level) + AllValues(Reached(levels[1..]))) ==
                 fs + LevelValues(level) + AllValues(Reached(levels[1..]));
        } else {
          assert Reached(levels) == [level] && Reached(levels)[1..] == [];
          assert LevelValues(level) + [] == LevelValues(level);
        }
      }
    }
  }

  lemma {:induction false} AddedConcat(a: seq<string>, b: seq<string>)
    ensures Added(a + b) == Added(b) + Added(a)
    decreases |a|
  {
    if a == [] {
      assert a + b == b;
    } else {
      assert (a + b)[1..] == a[1..] + b;
      AddedConcat(a[1..], b);
    }
  }

  /** The filters in force for a file: what was there, then the directories from the root
      down. */
  function InForce(before: seq<string>, levels: seq<Level>): seq<string> {
    before + Added(AllValues(Reached(levels)))
  }

  /** The decision of one directory's own filters. */
  function LevelDecision(level: Level, category: string): Option<bool> {
    Decide(Added(LevelValues(level)), category)
  }

  lemma {:induction false} NearestOf(before: seq<string>, reached: seq<Level>, category: string)
    requires reached != []
    ensures Decide(before + Added(AllValues(reached)), category) ==
            if LevelDecision(reached[0], category).Some? then LevelDecision(reached[0], category)
            else Decide(before + Added(AllValues(reached[1..])), category)
  {
    var near, far := LevelValues(reached[0]), AllValues(reached[1..]);
    AddedConcat(near, far);
    assert before + (Added(far) + Added(near)) == (before + Added(far)) + Added(near);
    DecideConcat(before + Added(far), Added(near), category);
  }

  /** The nearest directory with a filter for the category decides; without one, the filters
      from the command line and the defaults do. */
  lemma {:induction false} NearestDirectoryDecides(before: seq<string>, reached: seq<Level>, category: string, i: nat)
    requires i <= |reached|
    requires forall j | 0 <= j < i :: LevelDecision(reached[j], category) == None
    requires i < |reached| ==> LevelDecision(reached[i], category).Some?
    ensures Decide(before + Added(AllValues(reached)), category) ==
            if i < |reached| then LevelDecision(reached[i], category) else Decide(before, category)
    decreases |reached|
  {
    hide Decide, LevelDecision;
    if reached == [] {
      assert before + [] == before;
    } else {
      NearestOf(before, reached, category);
      if i > 0 {
        assert LevelDecision(reached[0], category) == None;
        NearestDirectoryDecides(before, reached[1..], category, i - 1);
      }
    }
  }

  /** Within one configuration file the first filter line with a match decides, because the
      collected values are applied last to first. */
  lemma FirstLineDecides(first: string, rest: seq<string>, category: string)
    ensures Decide(Added([first] + rest), category) ==
            if Decide(Items(first), category).Some? then Decide(Items(first), category)
            else Decide(Added(rest), category)
  {
    assert ([first] + rest)[1..] == rest;
    DecideConcat(Added(rest), Items(first), category);
  }

  // ----- the linter's state

  /** How a call of ProcessFile ends. */
  datatype Outcome = FileExcluded | FileUnreadable | FileIgnored | FileLinted | ValueError

  /** The filters after the values have been added one by one, up to the first that makes
      the list malformed. */
  function AddUntilBad(fs: seq<string>, values: seq<string>): (seq<string>, bool) {
    if values == [] then (fs, true)
    else
      var (fs', ok) := AddUntilBad(fs, values[1..]);
      if !ok then (fs', false)
      else (fs' + Items(values[0]), AllSigned(fs' + Items(values[0])))
  }

  /** Adding succeeds exactly when every added filter has a sign, and then adds them all. */
  lemma {:induction false} AddUntilBadMeans(fs: seq<string>, values: seq<string>)
    requires AllSigned(fs)
    ensures var (fs', ok) := AddUntilBad(fs, values);
            && (ok <==> AllSigned(Added(values)))
            && (ok ==> fs' == fs + Added(values) && AllSigned(fs'))
            && (!ok ==> fs' != fs)
    decreases |values|
  {
    hide Items, AllSigned;
    if values == [] {
      assert fs + [] == fs;
      SignedConcat([], []);
    } else {
      AddUntilBadMeans(fs, values[1..]);
      AddOne(fs, Added(values[1..]), Items(values[0]));
    }
  }

  lemma AddOne(fs: seq<string>, added: seq<string>, items: seq<string>)
    requires AllSigned(fs)
    ensures AllSigned(added + items) <==> AllSigned(added) && AllSigned(items)
    ensures AllSigned(added) ==> (AllSigned(fs + added + items) <==> AllSigned(items))
    ensures fs + added + items == fs + (added + items)
    ensures !AllSigned(items) ==> fs + added + items != fs
  {
    SignedConcat(added, items);
    SignedConcat(fs, added);
    SignedConcat(fs + added, items);
    if !AllSigned(items) {
      assert |fs + added + items| > |fs|;
    }
  }

  lemma SignedConcat(a: seq<string>, b: seq<string>)
    ensures AllSigned([])
    ensures AllSigned(a + b) <==> AllSigned(a) && AllSigned(b)
  {
    if AllSigned(a + b) {
      assert forall k | 0 <= k < |a| :: a[k] == (a + b)[k];
      assert forall k | 0 <= k < |b| :: b[k] == (a + b)[|a| + k];
    }
  }

  class LintState {
    var verboseLevel: int
    var filters: seq<string>
    var filtersBackup: seq<string>

    constructor ()
      ensures filters == DEFAULT_FILTERS && filtersBackup == DEFAULT_FILTERS && verboseLevel == 1
    {
      verboseLevel, filters, filtersBackup := 1, DEFAULT_FILTERS, DEFAULT_FILTERS;
    }

    /** False stands for the ValueError, which is raised after the list has changed. */
    method AddFilters(text: string) returns (ok: bool)
      modifies this`filters
      ensures filters == old(filters) + Items(text)
      ensures ok <==> AllSigned(filters)
    {
      hide Strip, Split;
      var pieces := Split(text);
      for i := 0 to |pieces|
        invariant filters == old(filters) + Cleaned(pieces[..i])
      {
        assert pieces[..i + 1][..i] == pieces[..i];
        var clean := Strip(pieces[i]);
        if clean != [] {
          filters := filters + [clean];
        }
      }
      assert pieces[..|pieces|] == pieces;
      ok := true;
      for i := 0 to |filters|
        invariant ok && forall k | 0 <= k < i :: Signed(filters[k])
      {
        if !Signed(filters[i]) {
          return false;
        }
      }
    }

    method SetFilters(text: string) returns (ok: bool)
      modifies this`filters
      ensures filters == DEFAULT_FILTERS + Items(text)
      ensures ok <==> AllSigned(filters)
    {
      filters := DEFAULT_FILTERS;
      ok := AddFilters(text);
    }

    /** An error is printed unless it is suppressed on its line, its confidence is below the
        verbosity level, or the last filter for its category is negative. */
    method ShouldPrintError(category: string, confidence: int, suppressed: bool) returns (r: bool)
      requires AllSigned(filters)
      ensures r <==> !suppressed && confidence >= verboseLevel && Decide(filters, category) != Some(false)
    {
      if suppressed {
        return false;
      }
      if confidence < verboseLevel {
        return false;
      }
      var isFiltered := false;
      for i := 0 to |filters|
        invariant isFiltered <==> Decide(filters[..i], category) == Some(false)
      {
        var one := filters[i];
        assert filters[..i + 1][..i] == filters[..i];
        if one[0] == '-' {
          if StartsWith(category, one[1..]) {
            isFiltered := true;
          }
        } else {
          if StartsWith(category, one[1..]) {
            isFiltered := false;
          }
        }
      }
      assert filters[..|filters|] == filters;
      return !isFiltered;
    }

    /** None stands for the ValueError; otherwise whether the file is to be processed. */
    method ProcessConfigOverrides(matches: (string, string) -> bool, levels: seq<Level>) returns (r: Option<bool>)
      requires AllSigned(filters)
      modifies this`filters
      ensures if ExcludedIn(matches, Reached(levels)) then r == Some(false) && filters == old(filters)
              else if AllSigned(Added(AllValues(Reached(levels)))) then r == Some(true) && filters == InForce(old(filters), levels)
              else r == None && filters != old(filters)
    {
      hide ScanLevels, Items, AllSigned, Added, Reached, AllValues, AddUntilBad, ExcludedIn;
      var scan := CollectFilters(matches, levels);
      ExcludedMeans(matches, levels, []);
      if scan.Excluded? {
        return Some(false);
      }
      ScanLevelsMeans(matches, levels, []);
      assert [] + AllValues(Reached(levels)) == AllValues(Reached(levels));
      AddUntilBadMeans(filters, scan.filters);
      var ok := AddReversed(scan.filters);
      return if ok then Some(true) else None;
    }

    /** Adds the collected values, the top-level directory's first; false stands for the
        ValueError. */
    method AddReversed(values: seq<string>) returns (ok: bool)
      requires AllSigned(filters)
      modifies this`filters
      ensures (filters, ok) == AddUntilBad(old(filters), values)
    {
      hide Items, AllSigned;
      var i := |values|;
      assert values[|values|..] == [];
      while i > 0
        invariant 0 <= i <= |values|
        invariant AddUntilBad(old(filters), values[i..]) == (filters, true)
      {
        i := i - 1;
        assert values[i..][1..] == values[i + 1..];
        ok := AddFilters(values[i]);
        if !ok {
          BadStays(old(filters), values, i);
          return;
        }
      }
      assert values[0..] == values;
      return true;
    }

    /** Backs the filters up, applies the configuration files, lints or skips the file, and
        restores the filters on every way out but the exception. */
    method ProcessFile(matches: (string, string) -> bool, levels: seq<Level>, verbosity: int, readable: bool, known: bool)
      returns (outcome: Outcome, ghost used: seq<string>)
      requires AllSigned(filters)
      modifies this
      ensures outcome != ValueError ==> filters == old(filters)
      ensures outcome == ValueError ==> filters != old(filters) && filtersBackup == old(filters)
      ensures outcome == ValueError <==>
                && !ExcludedIn(matches, Reached(levels))
                && !AllSigned(Added(AllValues(Reached(levels))))
      ensures outcome == FileExcluded <==> ExcludedIn(matches, Reached(levels))
      ensures outcome == FileLinted ==> used == InForce(old(filters), levels) && AllSigned(used)
      ensures verboseLevel == verbosity
    {
      hide ExcludedIn, Reached, AllValues, Added, AllSigned;
      verboseLevel := verbosity;
      filtersBackup := filters;
      used := [];
      var go := ProcessConfigOverrides(matches, levels);
      if go.None? {
        return ValueError, used;
      }
      if !go.value {
        filters := filtersBackup;
        return FileExcluded, used;
      }
      if !readable {
        filters := filtersBackup;
        return FileUnreadable, used;
      }
      if !known {
        outcome := FileIgnored;
      } else {
        SignedConcat(old(filters), Added(AllValues(Reached(levels))));
        used := filters;
        outcome := FileLinted;
      }
      filters := filtersBackup;
    }
  }

  lemma {:induction false} BadStays(fs: seq<string>, values: seq<string>, i: nat)
    requires i <= |values| && !AddUntilBad(fs, values[i..]).1
    ensures AddUntilBad(fs, values) == AddUntilBad(fs, values[i..])
    decreases i
  {
    if i == 0 {
      assert values[0..] == values;
    } else {
      assert values[i - 1..][1..] == values[i..];
      BadStays(fs, values, i - 1);
    }
  }

  /** The loop over the directories, and in it the loop over the lines of each file. */
  method CollectFilters(matches: (string, string) -> bool, levels: seq<Level>) returns (scan: Scan)
    ensures scan == ScanLevels(matches, levels, Going([], true))
  {
    scan := Going([], true);
    var i := 0;
    assert levels[0..] == levels;
    while scan.Going? && scan.keepLooking && i < |levels|
      invariant 0 <= i <= |levels|
      invariant ScanLevels(matches, levels, Going([], true)) == ScanLevels(matches, levels[i..], scan)
      decreases |levels| - i
    {
      var level := levels[i];
      if level.baseName == [] {
        break;
      }
      assert levels[i..][1..] == levels[i + 1..];
      scan := ReadConfig(matches, level, scan);
      i := i + 1;
    }
  }

  method ReadConfig(matches: (string, string) -> bool, level: Level, scan0: Scan) returns (scan: Scan)
    requires scan0.Going?
    ensures scan == ScanLevel(matches, level, scan0)
  {
    hide SettingOf;
    scan := scan0;
    match level.config
    case Missing =>
    case Unreadable =>
      scan := scan.(keepLooking := false);
    case Lines(lines) =>
      for i := 0 to |lines|
        invariant scan.Going? && scan == ScanLines(matches, level.baseName, lines[..i], scan0)
      {
        assert lines[..i + 1][..i] == lines[..i];
        match SettingOf(lines[i])
        case Nothing =>
        case NoParent =>
          scan := Going(scan.filters, false);
        case Filter(value) =>
          scan := Going(scan.filters + [value], scan.keepLooking);
        case ExcludeFiles(pattern) =>
          if level.baseName != [] && matches(pattern, level.baseName) {
            ExcludedStays(matches, level.baseName, lines, i + 1, scan0);
            return Excluded;
          }
        case Other =>
      }
      assert lines[..|lines|] == lines;
  }

  lemma {:induction false} ExcludedStays(matches: (string, string) -> bool, baseName: string, lines: seq<string>, i: nat, s: Scan)
    requires i <= |lines| && ScanLines(matches, baseName, lines[..i], s) == Excluded
    ensures ScanLines(matches, baseName, lines, s) == Excluded
    decreases |lines|
  {
    if i == |lines| {
      assert lines[..i] == lines;
    } else {
      assert lines[..|lines| - 1][..i] == lines[..i];
      ExcludedStays(matches, baseName, lines[..|lines| - 1], i, s);
    }
  }

  // ----- a filter without a sign

  lemma StripTight(s: string)
    requires Tight(s)
    ensures Strip(s) == s
  {
    assert "" + s + "" == s;
    StripIs("", s, "");
  }

  lemma SettingParts(line: string, name: string, value: string)
    requires '#' !in line && line == name + ("=" + value) && '=' !in name && Tight(name) && Tight(value) && Tight(line)
    ensures Before(line, "#") == line && Strip(line) == line != []
    ensures Strip(Before(line, "=")) == name && Strip(After(line, "=")) == value
  {
    FindChar(line, '#');
    FindCharIs(name, '=', value);
    hide Find, Strip;
    StripTight(line);
    StripTight(name);
    StripTight(value);
  }

  lemma OneItem(item: string)
    requires item != [] && Tight(item) && ',' !in item
    ensures Items(item) == [item]
  {
    FindChar(item, ',');
    hide Find, Strip;
    StripTight(item);
    assert Split(item) == [item];
    assert [item][..0] == [] && Cleaned([item]) == Cleaned([]) + [item];
  }

  lemma UnsignedSetting()
    ensures SettingOf("filter=x") == Filter("x") && Items("x") == ["x"]
  {
    hide Before, After, Strip, Items;
    var line := "filter=x";
    assert line == "filter" + ("=" + "x");
    SettingParts(line, "filter", "x");
    OneItem("x");
  }

  lemma UnsignedItem(item: string)
    requires !Signed(item)
    ensures !AllSigned([item])
  {
    assert [item][0] == item;
  }

  /** A configuration file with a filter without a sign. */
  function UnsignedLevels(): seq<Level> {
    [Level("a", Lines(["filter=x"]))]
  }

  lemma UnsignedReached(matches: (string, string) -> bool)
    ensures !ExcludedIn(matches, Reached(UnsignedLevels()))
    ensures Added(AllValues(Reached(UnsignedLevels()))) == ["x"] && !AllSigned(["x"])
  {
    UnsignedSetting();
    hide SettingOf, Items;
    var levels := UnsignedLevels();
    assert !StopsAt(levels[0]) && levels[1..] == [];
    assert Reached(levels) == [levels[0]] + [] == levels;
    assert ["filter=x"][..0] == [];
    assert LevelValues(levels[0]) == ["x"];
    assert AllValues(levels) == ["x"] + [] == ["x"];
    assert ["x"][1..] == [];
    assert Added(["x"]) == [] + ["x"] == ["x"];
    UnsignedItem("x");
  }

  /** With it, a file leaves the filters changed for all files after it. */
  method UnsignedFilterStays(matches: (string, string) -> bool) returns (state: LintState)
    ensures state.filtersBackup == DEFAULT_FILTERS && state.filters != DEFAULT_FILTERS
  {
    hide Reached, AllValues, Added, ExcludedIn;
    UnsignedReached(matches);
    state := new LintState();
    var outcome, _ := state.ProcessFile(matches, UnsignedLevels(), 1, true, true);
    assert outcome == ValueError;
  }
}
