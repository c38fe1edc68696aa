/** Test selection by file name and by tag. */
module Selector {

  /** The file system and the comment parser, as functions of their arguments. */
  datatype Env = Env(isGlob: string -> bool, normpath: string -> string, iglob: string -> set<string>, tags: string -> set<string>)

  datatype Error = TooManyTagOptions | BothIncludeAndExclude | SpecifiedTwice(name: string) | Unrecognized(name: string)

  datatype Result<+T> = Ok(value: T) | Err(error: Error)

  datatype Options = Options(includeFiles: seq<string>, excludeFiles: seq<string>,
                             includeAll: set<string>, includeAny: set<string>,
                             excludeAll: set<string>, excludeAny: set<string>)

  ghost function Names(s: seq<string>): set<string> {
    set x | x in s
  }

  lemma NamesPush(s: seq<string>, x: string)
    ensures Names(s + [x]) == Names(s) + {x}
  {
  }

  ghost predicate NoRepeats(s: seq<string>) {
    forall i, j | 0 <= i < j < |s| :: s[i] != s[j]
  }

  // ----- splitting names from patterns

  function Verbatim(env: Env, names: seq<string>): seq<string> {
    if names == [] then []
    else
      var front, last := Verbatim(env, names[..|names| - 1]), names[|names| - 1];
      if env.isGlob(last) then front else front + [env.normpath(last)]
  }

  function Globbed(env: Env, names: seq<string>): seq<string> {
    if names == [] then []
    else
      var front, last := Globbed(env, names[..|names| - 1]), names[|names| - 1];
      if env.isGlob(last) then front + [last] else front
  }

  /** The two lists have the patterns, and the other names in normal form, and nothing else. */
  lemma {:induction false} SplitMeans(env: Env, names: seq<string>, x: string)
    ensures x in Globbed(env, names) <==> x in names && env.isGlob(x)
    ensures x in Verbatim(env, names) <==> exists n :: n in names && !env.isGlob(n) && env.normpath(n) == x
    ensures |Verbatim(env, names)| + |Globbed(env, names)| == |names|
    decreases |names|
  {
    if names != [] {
      var front, last := names[..|names| - 1], names[|names| - 1];
      assert names == front + [last];
      SplitMeans(env, front, x);
      if x in Verbatim(env, front) {
        var n :| n in front && !env.isGlob(n) && env.normpath(n) == x;
        assert n in names;
      }
    }
  }

  method Partition(env: Env, names: seq<string>) returns (verbatim: seq<string>, globbed: seq<string>)
    ensures verbatim == Verbatim(env, names) && globbed == Globbed(env, names)
    ensures forall x :: x in globbed <==> x in names && env.isGlob(x)
    ensures forall x :: x in verbatim <==> exists n :: n in names && !env.isGlob(n) && env.normpath(n) == x
    ensures |verbatim| + |globbed| == |names|
  {
    forall x
      ensures x in Globbed(env, names) <==> x in names && env.isGlob(x)
      ensures x in Verbatim(env, names) <==> exists n :: n in names && !env.isGlob(n) && env.normpath(n) == x
    {
      SplitMeans(env, names, x);
    }
    SplitMeans(env, names, "");
    verbatim, globbed := [], [];
    for i := 0 to |names|
      invariant verbatim == Verbatim(env, names[..i]) && globbed == Globbed(env, names[..i])
    {
      assert names[..i + 1][..i] == names[..i];
      if env.isGlob(names[i]) {
        globbed := globbed + [names[i]];
        continue;
      }
      verbatim := verbatim + [env.normpath(names[i])];
    }
    assert names[..|names|] == names;
  }

  // ----- removing names from the universe

  /** The error for the first name that was already removed or was never there. */
  ghost predicate FirstOffender(universe: set<string>, names: seq<string>, e: Error) {
    exists k :: 0 <= k < |names| && OffenderAt(universe, names, k, e)
  }

  ghost predicate OffenderAt(universe: set<string>, names: seq<string>, k: nat, e: Error)
    requires k < |names|
  {
    && NoRepeats(names[..k]) && Names(names[..k]) <= universe
    && if names[k] in names[..k] then e == SpecifiedTwice(names[k])
       else names[k] !in universe && e == Unrecognized(names[k])
  }

  /** _pop_all under validation accepts exactly distinct names that are all present; without
      validation it takes what is there.  The remaining universe comes back too. */
  method PopAll(universe0: set<string>, names: seq<string>, validate: bool)
    returns (r: Result<(set<string>, set<string>)>)
    ensures r.Ok? <==> !validate || (NoRepeats(names) && Names(names) <= universe0)
    ensures r.Ok? ==> r.value.0 == Names(names) * universe0 && r.value.1 == universe0 - Names(names)
    ensures r.Err? ==> FirstOffender(universe0, names, r.error)
  {
    var universe := universe0;
    var members: set<string> := {};
    for i := 0 to |names|
      invariant members == Names(names[..i]) * universe0 && universe == universe0 - Names(names[..i])
      invariant validate ==> NoRepeats(names[..i]) && Names(names[..i]) <= universe0
    {
      var elem := names[i];
      assert names[..i + 1] == names[..i] + [elem];
      if validate && elem in members {
        assert OffenderAt(universe0, names, i, SpecifiedTwice(elem));
        assert exists k :: 0 <= k < i && names[k] == names[i];
        return Err(SpecifiedTwice(elem));
      }
      if elem in universe {
        universe := universe - {elem};
        members := members + {elem};
      } else if validate {
        assert OffenderAt(universe0, names, i, Unrecognized(elem));
        assert elem in Names(names) && elem !in universe0;
        return Err(Unrecognized(elem));
      }
    }
    assert names[..|names|] == names;
    return Ok((members, universe));
  }

  /** A list of the elements of a set, in any order. */
  method ListOf(s: set<string>) returns (r: seq<string>)
    ensures Names(r) == s && NoRepeats(r)
  {
    r := [];
    var rest := s;
    while rest != {}
      invariant rest <= s && Names(r) == s - rest && NoRepeats(r)
      decreases |rest|
    {
      var x :| x in rest;
      assert x !in Names(r);
      NamesPush(r, x);
      r := r + [x];
      rest := rest - {x};
    }
  }

  // ----- selection by file name

  ghost function Expansion(env: Env, patterns: seq<string>): set<string> {
    if patterns == [] then {} else Expansion(env, patterns[..|patterns| - 1]) + env.iglob(patterns[|patterns| - 1])
  }

  method Expand(env: Env, patterns: seq<string>) returns (r: set<string>)
    ensures r == Expansion(env, patterns)
  {
    r := {};
    for i := 0 to |patterns|
      invariant r == Expansion(env, patterns[..i])
    {
      assert patterns[..i + 1][..i] == patterns[..i];
      r := r + env.iglob(patterns[i]);
    }
    assert patterns[..|patterns|] == patterns;
  }

  /** A file matches a list of names and patterns. */
  ghost predicate Matches(env: Env, list: seq<string>, file: string) {
    file in Names(Verbatim(env, list)) || file in Expansion(env, Globbed(env, list))
  }

  lemma {:induction false} ExpansionMeans(env: Env, patterns: seq<string>, file: string)
    ensures file in Expansion(env, patterns) <==> exists n :: n in patterns && file in env.iglob(n)
    decreases |patterns|
  {
    if patterns != [] {
      var front, last := patterns[..|patterns| - 1], patterns[|patterns| - 1];
      assert patterns == front + [last];
      ExpansionMeans(env, front, file);
      if file in Expansion(env, front) {
        var n :| n in front && file in env.iglob(n);
        assert n in patterns;
      }
    }
  }

  /** A file matches a list exactly when it is the normal form of a plain name in it, or one of
      the files of a pattern in it. */
  lemma MatchesMeans(env: Env, list: seq<string>, file: string)
    ensures Matches(env, list, file) <==>
            exists n :: n in list && if env.isGlob(n) then file in env.iglob(n) else file == env.normpath(n)
  {
    hide Verbatim, Globbed, Expansion;
    SplitMeans(env, list, file);
    ExpansionMeans(env, Globbed(env, list), file);
    if file in Expansion(env, Globbed(env, list)) {
      var n :| n in Globbed(env, list) && file in env.iglob(n);
      SplitMeans(env, list, n);
    }
    if n :| n in list && env.isGlob(n) && file in env.iglob(n) {
      SplitMeans(env, list, n);
    }
  }

  /** The plain names of a list are distinct after normalisation, and all are tests. */
  ghost predicate GoodNames(env: Env, universe: set<string>, list: seq<string>) {
    NoRepeats(Verbatim(env, list)) && Names(Verbatim(env, list)) <= universe
  }

  ghost function Matching(env: Env, universe: set<string>, list: seq<string>): set<string> {
    set f | f in universe && Matches(env, list, f)
  }

  /** Removes what a list matches from the universe. */
  method TakeMatching(env: Env, universe0: set<string>, list: seq<string>)
    returns (r: Result<(set<string>, set<string>)>)
    ensures r.Ok? <==> GoodNames(env, universe0, list)
    ensures r.Ok? ==> r.value == (Matching(env, universe0, list), universe0 - Matching(env, universe0, list))
    ensures r.Err? ==> FirstOffender(universe0, Verbatim(env, list), r.error)
  {
    var verbatim, globbed := Partition(env, list);
    var first := PopAll(universe0, verbatim, true);
    if first.Err? {
      return Err(first.error);
    }
    var expanded := Expand(env, globbed);
    var asList := ListOf(expanded);
    var second := PopAll(first.value.1, asList, false);
    assert first.value.0 + second.value.0 == Matching(env, universe0, list);
    assert second.value.1 == universe0 - Matching(env, universe0, list);
    return Ok((first.value.0 + second.value.0, second.value.1));
  }

  /** The triplet (remaining, included, excluded): three disjoint parts of the universe. */
  method FilterByFilename(env: Env, tests: seq<string>, includeFiles: seq<string>, excludeFiles: seq<string>)
    returns (r: Result<(set<string>, set<string>, set<string>)>)
    ensures r.Ok? <==>
              && (includeFiles == [] || excludeFiles == [])
              && GoodNames(env, Names(tests), includeFiles) && GoodNames(env, Names(tests), excludeFiles)
    ensures r.Err? ==> if includeFiles != [] && excludeFiles != [] then r.error == BothIncludeAndExclude
                       else FirstOffender(Names(tests), Verbatim(env, if includeFiles != [] then includeFiles else excludeFiles), r.error)
    ensures r.Ok? ==>
              var (remaining, included, excluded) := r.value;
              && included == Matching(env, Names(tests), includeFiles)
              && excluded == Matching(env, Names(tests), excludeFiles)
              && remaining !! included !! excluded
              && remaining + included + excluded == Names(tests)
  {
    if includeFiles != [] && excludeFiles != [] {
      return Err(BothIncludeAndExclude);
    }
    NothingMatchesNothing(env, Names(tests));
    var universe := SetOf(tests);
    if includeFiles != [] {
      var taken := TakeMatching(env, universe, includeFiles);
      if taken.Err? {
        return Err(taken.error);
      }
      return Ok((taken.value.1, taken.value.0, {}));
    } else if excludeFiles != [] {
      var taken := TakeMatching(env, universe, excludeFiles);
      if taken.Err? {
        return Err(taken.error);
      }
      return Ok((taken.value.1, {}, taken.value.0));
    }
    return Ok((universe, {}, {}));
  }

  lemma NothingMatchesNothing(env: Env, universe: set<string>)
    ensures GoodNames(env, universe, []) && Matching(env, universe, []) == {}
  {
  }

  method SetOf(s: seq<string>) returns (r: set<string>)
    ensures r == Names(s)
  {
    r := {};
    for i := 0 to |s|
      invariant r == Names(s[..i])
    {
      assert s[..i + 1] == s[..i] + [s[i]];
      r := r + {s[i]};
    }
    assert s[..|s|] == s;
  }

  // ----- selection by tags

  function TagOptions(o: Options): nat {
    (if o.includeAll != {} then 1 else 0) + (if o.includeAny != {} then 1 else 0) +
    (if o.excludeAll != {} then 1 else 0) + (if o.excludeAny != {} then 1 else 0)
  }

  predicate IncludedByTag(env: Env, o: Options, file: string) {
    || (o.includeAll != {} && o.includeAll <= env.tags(file))
    || (o.includeAny != {} && o.includeAny * env.tags(file) != {})
  }

  predicate ExcludedByTag(env: Env, o: Options, file: string) {
    || (o.excludeAll != {} && o.excludeAll <= env.tags(file))
    || (o.excludeAny != {} && o.excludeAny * env.tags(file) != {})
  }

  /** A test is included or excluded by an option for all tags if it has every one of them, and
      by an option for any tag if it has one of them. */
  lemma TagsMean(env: Env, o: Options, file: string)
    ensures IncludedByTag(env, o, file) <==>
            || (o.includeAll != {} && forall t | t in o.includeAll :: t in env.tags(file))
            || exists t :: t in o.includeAny && t in env.tags(file)
    ensures ExcludedByTag(env, o, file) <==>
            || (o.excludeAll != {} && forall t | t in o.excludeAll :: t in env.tags(file))
            || exists t :: t in o.excludeAny && t in env.tags(file)
  {
    AnyMeans(o.includeAny, env.tags(file));
    AnyMeans(o.excludeAny, env.tags(file));
  }

  lemma AnyMeans(a: set<string>, b: set<string>)
    ensures a * b != {} <==> exists t :: t in a && t in b
  {
    if t :| t in a && t in b {
      assert t in a * b;
    }
    if a * b != {} {
      var t :| t in a * b;
    }
  }

  ghost predicate Legal(env: Env, universe: set<string>, o: Options) {
    && TagOptions(o) <= 1
    && (o.includeFiles == [] || o.excludeFiles == [])
    && GoodNames(env, universe, o.includeFiles)
    && GoodNames(env, universe, o.excludeFiles)
  }

  /** Which tests are selected.  A file list and a tag option add up when one of them
      includes: listed files are kept whatever their tags, and an exclusion by tag also
      keeps the tests that are not listed. */
  ghost predicate Selected(env: Env, o: Options, file: string) {
    var listed := Matches(env, o.includeFiles, file);
    if o.includeAll != {} || o.includeAny != {} then
      (listed || IncludedByTag(env, o, file)) && !Matches(env, o.excludeFiles, file)
    else if o.excludeAll != {} || o.excludeAny != {} then
      (listed || !ExcludedByTag(env, o, file)) && !Matches(env, o.excludeFiles, file)
    else if o.includeFiles != [] then listed
    else !Matches(env, o.excludeFiles, file)
  }

  datatype Verdict = Include | Exclude | Neither

  /** The verdict on one file, from its tags. */
  method Judge(env: Env, o: Options, file: string) returns (v: Verdict)
    requires TagOptions(o) <= 1
    ensures v == Include <==> IncludedByTag(env, o, file)
    ensures v == Exclude <==> ExcludedByTag(env, o, file)
  {
    var tags := env.tags(file);
    NoneMissing(o.includeAll, tags);
    NoneMissing(o.excludeAll, tags);
    if o.includeAll != {} && o.includeAll - tags == {} {
      return Include;
    } else if o.includeAny != {} && o.includeAny * tags != {} {
      return Include;
    } else if o.excludeAll != {} && o.excludeAll - tags == {} {
      return Exclude;
    } else if o.excludeAny != {} && o.excludeAny * tags != {} {
      return Exclude;
    }
    return Neither;
  }

  lemma NoneMissing(a: set<string>, b: set<string>)
    ensures a - b == {} <==> a <= b
  {
    if a - b == {} {
      forall x | x in a
        ensures x in b
      {
        assert x !in a - b;
      }
    }
  }

  ghost function TagIncluded(env: Env, o: Options, tests: set<string>): set<string> {
    set f | f in tests && IncludedByTag(env, o, f)
  }

  ghost function TagExcluded(env: Env, o: Options, tests: set<string>): set<string> {
    set f | f in tests && ExcludedByTag(env, o, f)
  }

  lemma OneMore(env: Env, o: Options, tests: set<string>, file: string)
    ensures TagIncluded(env, o, tests + {file}) ==
            if IncludedByTag(env, o, file) then TagIncluded(env, o, tests) + {file} else TagIncluded(env, o, tests)
    ensures TagExcluded(env, o, tests + {file}) ==
            if ExcludedByTag(env, o, file) then TagExcluded(env, o, tests) + {file} else TagExcluded(env, o, tests)
  {
    hide IncludedByTag, ExcludedByTag;
  }

  /** The loop over the remaining tests. */
  method SplitByTags(env: Env, o: Options, tests: set<string>, included0: set<string>)
    returns (included: set<string>, excluded: set<string>)
    requires TagOptions(o) <= 1
    ensures included == included0 + TagIncluded(env, o, tests)
    ensures excluded == TagExcluded(env, o, tests)
  {
    hide TagIncluded, TagExcluded, IncludedByTag, ExcludedByTag, TagOptions;
    included, excluded := included0, {};
    var rest := tests;
    NoTests(env, o);
    assert tests - rest == {};
    while rest != {}
      invariant rest <= tests
      invariant included == included0 + TagIncluded(env, o, tests - rest)
      invariant excluded == TagExcluded(env, o, tests - rest)
      decreases |rest|
    {
      var file :| file in rest;
      assert tests - (rest - {file}) == (tests - rest) + {file};
      OneMore(env, o, tests - rest, file);
      var v := Judge(env, o, file);
      if v == Include {
        included := included + {file};
        assert included == included0 + (TagIncluded(env, o, tests - rest) + {file});
      } else if v == Exclude {
        excluded := excluded + {file};
      }
      rest := rest - {file};
    }
    assert tests - rest == tests;
  }

  lemma NoTests(env: Env, o: Options)
    ensures TagIncluded(env, o, {}) == {} && TagExcluded(env, o, {}) == {}
  {
  }

  /** filter_jstests: it fails exactly on illegal options, and otherwise selects exactly the
      tests that the options describe. */
  method FilterJstests(env: Env, tests: seq<string>, o: Options) returns (r: Result<seq<string>>)
    ensures r.Ok? <==> Legal(env, Names(tests), o)
    ensures r.Ok? ==> Names(r.value) == set f | f in tests && Selected(env, o, f)
    ensures r.Ok? && !NoRepeats(r.value) ==> r.value == tests
    ensures r.Err? ==>
              if TagOptions(o) > 1 then r.error == TooManyTagOptions
              else if o.includeFiles != [] && o.excludeFiles != [] then r.error == BothIncludeAndExclude
              else FirstOffender(Names(tests), Verbatim(env, if o.includeFiles != [] then o.includeFiles else o.excludeFiles), r.error)
  {
    NothingMatchesNothing(env, Names(tests));
    if TagOptions(o) > 1 {
      return Err(TooManyTagOptions);
    }
    var byName := FilterByFilename(env, tests, o.includeFiles, o.excludeFiles);
    if byName.Err? {
      return Err(byName.error);
    }
    var (remaining, included, _) := byName.value;
    var list: seq<string>;
    if TagOptions(o) == 0 {
      if o.includeFiles != [] {
        list := ListOf(included);
      } else if o.excludeFiles != [] {
        list := ListOf(remaining);
      } else {
        list := tests;
      }
    } else {
      var byTag, excluded := SplitByTags(env, o, remaining, included);
      list := CombineTags(env, o, remaining, byTag, excluded);
    }
    return Ok(list);
  }

  method CombineTags(env: Env, o: Options, tests: set<string>, included: set<string>, excluded: set<string>)
    returns (list: seq<string>)
    ensures NoRepeats(list)
    ensures Names(list) ==
            if o.includeAll != {} || o.includeAny != {} then
              if o.excludeFiles != [] then (included * tests) - excluded else included
            else
              if o.includeFiles != [] then included + (tests - excluded) else tests - excluded
  {
    if o.includeAll != {} || o.includeAny != {} {
      if o.excludeFiles != [] {
        list := ListOf((included * tests) - excluded);
      } else {
        list := ListOf(included);
      }
    } else {
      if o.includeFiles != [] {
        list := ListOf(included + (tests - excluded));
      } else {
        list := ListOf(tests - excluded);
      }
    }
  }

  // ----- file lists with tags

  /** Two tests, of which `a` is slow. */
  function TwoTests(): Env {
    Env(_ => false, name => name, _ => {}, name => if name == "a" then {"slow"} else {})
  }

  lemma OneName(env: Env, name: string)
    requires !env.isGlob(name) && env.normpath(name) == name
    ensures Verbatim(env, [name]) == [name] && Globbed(env, [name]) == []
  {
    assert [name][..0] == [];
  }

  /** With a list of files to include, an exclusion by tag keeps a listed file that has the
      tag and a file that is not listed. */
  lemma ListAndExclusion()
    ensures var env := TwoTests();
            var o := Options(["a"], [], {}, {}, {}, {"slow"});
            && Legal(env, {"a", "b"}, o) && ExcludedByTag(env, o, "a") && Selected(env, o, "a")
            && !Matches(env, o.includeFiles, "b") && Selected(env, o, "b")
  {
    OneName(TwoTests(), "a");
    NothingMatchesNothing(TwoTests(), {"a", "b"});
    hide Verbatim, Globbed;
  }

  /** An inclusion by tag adds to the list. */
  lemma ListAndInclusion()
    ensures var env := TwoTests();
            var o := Options(["b"], [], {}, {"slow"}, {}, {});
            && Legal(env, {"a", "b"}, o) && !IncludedByTag(env, o, "b") && Selected(env, o, "b")
            && !Matches(env, o.includeFiles, "a") && Selected(env, o, "a")
  {
    OneName(TwoTests(), "b");
    NothingMatchesNothing(TwoTests(), {"a", "b"});
    hide Verbatim, Globbed;
  }
}
