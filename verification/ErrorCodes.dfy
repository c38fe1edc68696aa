/** The check of assertion codes and the repair of zero codes. */
module ErrorCodes {

  import opened Chars

  /** A source line; each holds at most one assertion code. */
  datatype Place = Place(file: string, line: nat)

  datatype Location = Location(place: Place, code: string)

  // ----- decimal numbers

  predicate IsCode(s: string) {
    s != [] && forall k | 0 <= k < |s| :: '0' <= s[k] <= '9'
  }

  /** Python's `int(s)` for a string of digits. */
  function IntOf(s: string): nat
    requires IsCode(s)
  {
    var digit := (s[|s| - 1] as int) - ('0' as int);
    if |s| == 1 then digit else 10 * IntOf(s[..|s| - 1]) + digit
  }

  /** Python's `str(n)`. */
  function StrOf(n: nat): (s: string)
    ensures IsCode(s) && IntOf(s) == n
  {
    var digit := [((n % 10) + '0' as int) as char];
    if n < 10 then digit
    else
      var front := StrOf(n / 10);
      var s := front + digit;
      assert s[..|s| - 1] == front;
      s
  }

  // ----- reading

  /** The variables that the callback updates: for each code its first location, the codes
      seen more than once, and the reported locations. */
  datatype Reading = Reading(seen: map<string, Location>, dups: set<string>, errors: seq<Location>)

  function CheckDups(r: Reading, loc: Location): Reading {
    var code := loc.code;
    if code !in r.seen then r.(seen := r.seen[code := loc])
    else
      var first := if code !in r.dups then [r.seen[code]] else [];
      r.(dups := r.dups + {code}, errors := r.errors + first + [loc])
  }

  function ReadAll(locs: seq<Location>): Reading {
    if locs == [] then Reading(map[], {}, [])
    else CheckDups(ReadAll(locs[..|locs| - 1]), locs[|locs| - 1])
  }

  /** The list of errors: duplicates, and the first zero code once more. */
  function Errors(locs: seq<Location>): seq<Location> {
    var r := ReadAll(locs);
    r.errors + if "0" in r.seen then [r.seen["0"]] else []
  }

  function CountOf(locs: seq<Location>, code: string): nat {
    if locs == [] then 0
    else CountOf(locs[..|locs| - 1], code) + if locs[|locs| - 1].code == code then 1 else 0
  }

  /** How often a location is reported as a duplicate. */
  function Reported(locs: seq<Location>, l: Location): nat {
    if CountOf(locs, l.code) >= 2 then multiset(locs)[l] else 0
  }

  ghost predicate ReadingMeans(locs: seq<Location>, r: Reading) {
    && (forall c :: c in r.seen <==> CountOf(locs, c) >= 1)
    && (forall c | c in r.seen :: r.seen[c] in locs && r.seen[c].code == c)
    && (forall c :: c in r.dups <==> CountOf(locs, c) >= 2)
    && (forall l :: multiset(r.errors)[l] == Reported(locs, l))
  }

  lemma {:induction false} CountPositive(locs: seq<Location>, l: Location)
    requires l in locs
    ensures CountOf(locs, l.code) >= 1
    ensures CountOf(locs, l.code) == 1 ==> multiset(locs)[l] == 1 && forall m | m in locs && m.code == l.code :: m == l
    decreases |locs|
  {
    var front, last := locs[..|locs| - 1], locs[|locs| - 1];
    assert locs == front + [last];
    if l in front {
      CountPositive(front, l);
    }
    forall m | m in front && m.code == l.code
      ensures CountOf(front, l.code) >= 1
    {
      CountPositive(front, m);
    }
  }

  lemma {:induction false} CountZero(locs: seq<Location>, code: string)
    requires CountOf(locs, code) == 0
    ensures forall m | m in locs :: m.code != code
    decreases |locs|
  {
    if locs != [] {
      var front, last := locs[..|locs| - 1], locs[|locs| - 1];
      assert locs == front + [last];
      CountZero(front, code);
    }
  }

  /** The reported duplicates are exactly the locations whose code occurs more than once,
      each as often as it was read. */
  lemma {:induction false} ReadAllMeans(locs: seq<Location>)
    ensures ReadingMeans(locs, ReadAll(locs))
    decreases |locs|
  {
    if locs != [] {
      var front, last := locs[..|locs| - 1], locs[|locs| - 1];
      assert locs == front + [last];
      ReadAllMeans(front);
      CheckDupsMeans(front, ReadAll(front), last);
    }
  }

  lemma CheckDupsMeans(front: seq<Location>, r: Reading, last: Location)
    requires ReadingMeans(front, r)
    ensures ReadingMeans(front + [last], CheckDups(r, last))
  {
    var locs := front + [last];
    assert locs[..|locs| - 1] == front;
    var r' := CheckDups(r, last);
    forall l
      ensures multiset(r'.errors)[l] == Reported(locs, l)
    {
      ErrorsStep(front, r, last, l);
    }
  }

  lemma ErrorsStep(front: seq<Location>, r: Reading, last: Location, l: Location)
    requires ReadingMeans(front, r)
    ensures multiset(CheckDups(r, last).errors)[l] == Reported(front + [last], l)
  {
    var locs := front + [last];
    assert locs[..|locs| - 1] == front;
    assert multiset(locs) == multiset(front) + multiset{last};
    var code := last.code;
    if CountOf(front, code) == 0 {
      CountZero(front, code);
    } else if CountOf(front, code) == 1 {
      var first := r.seen[code];
      CountPositive(front, first);
      assert multiset(r.errors + [first] + [last]) == multiset(r.errors) + multiset{first} + multiset{last};
    } else {
      assert multiset(r.errors + [] + [last]) == multiset(r.errors) + multiset{last};
    }
  }

  // ----- the verdict

  ghost predicate DistinctCodes(locs: seq<Location>) {
    forall i, j | 0 <= i < j < |locs| :: locs[i].code != locs[j].code
  }

  lemma CountsMeanDistinct(locs: seq<Location>)
    ensures DistinctCodes(locs) <==> forall l | l in locs :: CountOf(locs, l.code) == 1
  {
    hide DistinctCodes, CountOf;
    if DistinctCodes(locs) {
      DistinctCounts(locs);
    }
    if forall l | l in locs :: CountOf(locs, l.code) == 1 {
      CountsDistinct(locs);
    }
  }

  lemma CountLast(front: seq<Location>, last: Location, code: string)
    ensures CountOf(front + [last], code) == CountOf(front, code) + (if last.code == code then 1 else 0)
  {
    assert (front + [last])[..|front|] == front;
  }

  lemma {:induction false} DistinctCounts(locs: seq<Location>)
    requires DistinctCodes(locs)
    ensures forall l | l in locs :: CountOf(locs, l.code) == 1
    decreases |locs|
  {
    hide CountOf;
    if locs != [] {
      var front, last := locs[..|locs| - 1], locs[|locs| - 1];
      assert locs == front + [last];
      DistinctCounts(front);
      assert CountOf(front, last.code) == 0 by {
        if CountOf(front, last.code) > 0 {
          var k := Occurrence(front, last.code);
        }
      }
      forall l | l in locs
        ensures CountOf(locs, l.code) == 1
      {
        CountLast(front, last, l.code);
        if l in front {
          var k :| 0 <= k < |front| && front[k] == l;
        }
      }
    }
  }

  lemma {:induction false} CountsDistinct(locs: seq<Location>)
    requires forall l | l in locs :: CountOf(locs, l.code) == 1
    ensures DistinctCodes(locs)
    decreases |locs|
  {
    hide CountOf;
    if locs != [] {
      var front, last := locs[..|locs| - 1], locs[|locs| - 1];
      assert locs == front + [last];
      CountLast(front, last, last.code);
      CountZero(front, last.code);
      forall l | l in front
        ensures CountOf(front, l.code) == 1 && l.code != last.code
      {
        CountLast(front, last, l.code);
        assert l in locs;
      }
      CountsDistinct(front);
      assert forall i | 0 <= i < |front| :: locs[i] == front[i] && front[i] in front;
    }
  }

  lemma {:induction false} Occurrence(locs: seq<Location>, code: string) returns (k: nat)
    requires CountOf(locs, code) > 0
    ensures k < |locs| && locs[k].code == code
    decreases |locs|
  {
    if locs[|locs| - 1].code == code {
      k := |locs| - 1;
    } else {
      k := Occurrence(locs[..|locs| - 1], code);
    }
  }

  /** checkErrorCodes is true exactly when all codes are distinct and none is zero. */
  lemma CheckIffDistinct(locs: seq<Location>)
    ensures Errors(locs) == [] <==> DistinctCodes(locs) && forall l | l in locs :: l.code != "0"
  {
    ReadAllMeans(locs);
    CountsMeanDistinct(locs);
    var r := ReadAll(locs);
    if Errors(locs) == [] {
      forall l | l in locs
        ensures CountOf(locs, l.code) == 1 && l.code != "0"
      {
        CountPositive(locs, l);
        assert multiset(r.errors)[l] == 0;
      }
    } else if r.errors != [] {
      var l := r.errors[0];
      assert multiset(r.errors)[l] > 0;
      assert l in multiset(locs);
      assert l in locs;
    } else {
      assert r.seen["0"] in locs;
    }
  }

  /** Every zero code is among the errors. */
  lemma ZeroReported(locs: seq<Location>, l: Location)
    requires l in locs && l.code == "0"
    ensures l in Errors(locs)
  {
    ReadAllMeans(locs);
    CountPositive(locs, l);
    var r := ReadAll(locs);
    if CountOf(locs, "0") >= 2 {
      assert multiset(r.errors)[l] > 0;
      assert l in multiset(r.errors);
    } else {
      assert r.seen["0"] == l;
    }
  }

  lemma ErrorsAreLocations(locs: seq<Location>, l: Location)
    requires l in Errors(locs)
    ensures l in locs
  {
    ReadAllMeans(locs);
    var r := ReadAll(locs);
    if l in r.errors {
      assert multiset(r.errors)[l] > 0;
      assert l in multiset(locs);
    }
  }

  // ----- the next free code

  predicate AllCodes(locs: seq<Location>) {
    forall k | 0 <= k < |locs| :: IsCode(locs[k].code)
  }

  function Highest(locs: seq<Location>): (h: nat)
    requires AllCodes(locs)
    ensures forall k | 0 <= k < |locs| :: IntOf(locs[k].code) <= h
  {
    if locs == [] then 0
    else
      var front := Highest(locs[..|locs| - 1]);
      var last := IntOf(locs[|locs| - 1].code);
      assert forall k | 0 <= k < |locs| - 1 :: locs[k] == locs[..|locs| - 1][k];
      if front < last then last else front
  }

  lemma HighestStep(locs: seq<Location>, i: nat)
    requires AllCodes(locs) && i < |locs|
    ensures var last := IntOf(locs[i].code);
            var front := Highest(locs[..i]);
            Highest(locs[..i + 1]) == if front < last then last else front
  {
    hide IntOf;
    assert locs[..i + 1][..i] == locs[..i];
  }

  /** The reduction over the codes of a list with at least one. */
  method Reduce(locs: seq<Location>) returns (highest: nat)
    requires AllCodes(locs) && locs != []
    ensures highest == Highest(locs)
    ensures exists k :: 0 <= k < |locs| && IntOf(locs[k].code) == highest
    ensures forall k | 0 <= k < |locs| :: IntOf(locs[k].code) <= highest
  {
    hide IntOf, Highest;
    HighestStep(locs, 0);
    highest := IntOf(locs[0].code);
    assert locs[..0] == [] && Highest([]) == 0 by { NoHighest(); }
    for i := 1 to |locs|
      invariant highest == Highest(locs[..i])
      invariant exists k :: 0 <= k < i && IntOf(locs[k].code) == highest
      invariant forall k | 0 <= k < i :: IntOf(locs[k].code) <= highest
    {
      HighestStep(locs, i);
      var code := IntOf(locs[i].code);
      highest := if highest < code then code else highest;
    }
    assert locs[..|locs|] == locs;
  }

  lemma NoHighest()
    ensures Highest([]) == 0
  {
  }

  /** getNextCode.  Reducing fewer than two codes never converts one to a number, and adding
      one to the result is then a TypeError. */
  function NextCode(locs: seq<Location>): Option<nat>
    requires AllCodes(locs)
  {
    if |locs| < 2 then None else Some(Highest(locs) + 1)
  }

  // ----- the repair

  type Source = map<Place, string>

  function Zeros(errors: seq<Location>): (zs: seq<Location>)
    requires AllCodes(errors)
    ensures AllCodes(zs)
    ensures forall l :: l in zs <==> l in errors && IsCode(l.code) && IntOf(l.code) == 0
  {
    if errors == [] then []
    else
      var front, last := errors[..|errors| - 1], errors[|errors| - 1];
      assert errors == front + [last];
      Zeros(front) + if IntOf(last.code) == 0 then [last] else []
  }

  /** Writes consecutive codes, from `next` on, at the places of `zs` in order. */
  function Replace(src: Source, zs: seq<Location>, next: nat): Source {
    if zs == [] then src
    else Replace(src, zs[..|zs| - 1], next)[zs[|zs| - 1].place := StrOf(next + |zs| - 1)]
  }

  /** A place that is listed gets the code of its last listing, the others keep theirs. */
  lemma {:induction false} ReplaceAt(src: Source, zs: seq<Location>, next: nat, p: Place) returns (last: int)
    ensures -1 <= last < |zs|
    ensures forall k | last < k < |zs| :: zs[k].place != p
    ensures last >= 0 ==> zs[last].place == p && p in Replace(src, zs, next) && Replace(src, zs, next)[p] == StrOf(next + last)
    ensures last == -1 ==> (p in Replace(src, zs, next) <==> p in src)
    ensures last == -1 && p in src ==> Replace(src, zs, next)[p] == src[p]
    decreases |zs|
  {
    if zs == [] {
      last := -1;
    } else if zs[|zs| - 1].place == p {
      last := |zs| - 1;
    } else {
      last := ReplaceAt(src, zs[..|zs| - 1], next, p);
      assert forall k | 0 <= k < |zs| - 1 :: zs[k] == zs[..|zs| - 1][k];
    }
  }

  ghost predicate DistinctPlaces(locs: seq<Location>) {
    forall i, j | 0 <= i < j < |locs| :: locs[i].place != locs[j].place
  }

  /** The parsed locations agree with the source, every code is a number, and zero is
      written with one digit. */
  ghost predicate Parsed(locs: seq<Location>, src: Source) {
    && AllCodes(locs) && DistinctPlaces(locs)
    && (forall l | l in locs :: IsCode(l.code) && l.place in src && src[l.place] == l.code)
    && (forall l | l in locs && l.code != "0" :: IntOf(l.code) != 0)
  }

  lemma ErrorsAreCodes(locs: seq<Location>)
    requires forall l | l in locs :: IsCode(l.code)
    ensures AllCodes(Errors(locs))
  {
    forall k | 0 <= k < |Errors(locs)|
      ensures IsCode(Errors(locs)[k].code)
    {
      ErrorsAreLocations(locs, Errors(locs)[k]);
    }
  }

  /** The errors that the repair treats, in the order they are listed. */
  ghost function Treated(locs: seq<Location>): seq<Location>
    requires forall l | l in locs :: IsCode(l.code)
  {
    ErrorsAreCodes(locs);
    Zeros(Errors(locs))
  }

  /** The source after `--fix`. */
  ghost function Fixed(locs: seq<Location>, src: Source): Source
    requires Parsed(locs, src)
  {
    Replace(src, Treated(locs), Highest(locs) + 1)
  }

  lemma SamePlace(locs: seq<Location>, a: Location, b: Location)
    requires DistinctPlaces(locs) && a in locs && b in locs && a.place == b.place
    ensures a == b
  {
    var i :| 0 <= i < |locs| && locs[i] == a;
    var j :| 0 <= j < |locs| && locs[j] == b;
  }

  /** Nonzero codes stay, zero codes get a code above all others; `slot` tells which. */
  lemma FixedAt(locs: seq<Location>, src: Source, l: Location) returns (slot: int)
    requires Parsed(locs, src) && l in locs
    ensures l.place in Fixed(locs, src)
    ensures slot == -1 <==> l.code != "0"
    ensures slot == -1 ==> Fixed(locs, src)[l.place] == l.code
    ensures slot != -1 ==> slot >= 0 && Fixed(locs, src)[l.place] == StrOf(Highest(locs) + 1 + slot)
    ensures slot != -1 ==> slot < |Treated(locs)| && Treated(locs)[slot].place == l.place
  {
    ErrorsAreCodes(locs);
    var zs := Treated(locs);
    slot := ReplaceAt(src, zs, Highest(locs) + 1, l.place);
    if slot >= 0 {
      assert zs[slot] in zs;
      ErrorsAreLocations(locs, zs[slot]);
      SamePlace(locs, zs[slot], l);
    }
    if l.code == "0" {
      ZeroReported(locs, l);
      assert l in zs;
    }
  }

  lemma CodeBelowNext(locs: seq<Location>, l: Location)
    requires AllCodes(locs) && l in locs
    ensures IsCode(l.code) && IntOf(l.code) <= Highest(locs)
  {
    var i :| 0 <= i < |locs| && locs[i] == l;
  }

  /** A repaired code is a number that no location had before, and no other location has
      after the repair, although the first zero may be listed twice. */
  lemma FixedIsFresh(locs: seq<Location>, src: Source, l: Location, m: Location)
    requires Parsed(locs, src) && l in locs && m in locs && l.code == "0"
    ensures l.place in Fixed(locs, src) && m.place in Fixed(locs, src)
    ensures Fixed(locs, src)[l.place] != m.code
    ensures l != m ==> Fixed(locs, src)[l.place] != Fixed(locs, src)[m.place]
  {
    var i := FixedAt(locs, src, l);
    var j := FixedAt(locs, src, m);
    CodeBelowNext(locs, m);
    var code := StrOf(Highest(locs) + 1 + i);
    assert IntOf(code) > Highest(locs);
    if j != -1 {
      assert IntOf(StrOf(Highest(locs) + 1 + j)) == Highest(locs) + 1 + j;
      if i == j {
        SamePlace(locs, l, m);
      }
    }
  }

  /** What the next run reads. */
  ghost function Reread(locs: seq<Location>, src: Source): (r: seq<Location>)
    requires forall l | l in locs :: l.place in src
    ensures |r| == |locs|
    ensures forall k | 0 <= k < |locs| :: r[k] == Location(locs[k].place, src[locs[k].place])
  {
    seq(|locs|, k requires 0 <= k < |locs| => assert locs[k] in locs; Location(locs[k].place, src[locs[k].place]))
  }

  ghost predicate DistinctNonzero(locs: seq<Location>) {
    forall i, j | 0 <= i < j < |locs| && locs[i].code != "0" :: locs[i].code != locs[j].code
  }

  /** After the repair the check succeeds exactly when the nonzero codes were distinct: the
      other errors need manual correction. */
  lemma FixThenCheck(locs: seq<Location>, src: Source)
    requires Parsed(locs, src)
    ensures forall l | l in locs :: l.place in Fixed(locs, src)
    ensures Errors(Reread(locs, Fixed(locs, src))) == [] <==> DistinctNonzero(locs)
  {
    hide Errors, Fixed, Parsed;
    var src' := Fixed(locs, src);
    forall l | l in locs
      ensures l.place in src' && src'[l.place] != "0"
    {
      FixedNotZero(locs, src, l);
    }
    var locs' := Reread(locs, src');
    forall k | 0 <= k < |locs'|
      ensures locs'[k].code != "0"
    {
      assert locs[k] in locs;
    }
    CheckIffDistinct(locs');
    if DistinctNonzero(locs) {
      forall i, j | 0 <= i < j < |locs|
        ensures locs'[i].code != locs'[j].code
      {
        DistinctAfter(locs, src, i, j);
      }
    }
    if DistinctCodes(locs') {
      DistinctBefore(locs, src);
    }
  }

  lemma DistinctBefore(locs: seq<Location>, src: Source)
    requires Parsed(locs, src) && forall l | l in locs :: l.place in Fixed(locs, src)
    requires DistinctCodes(Reread(locs, Fixed(locs, src)))
    ensures DistinctNonzero(locs)
  {
    hide Errors, Fixed, Parsed;
    var locs' := Reread(locs, Fixed(locs, src));
    forall i, j | 0 <= i < j < |locs| && locs[i].code != "0"
      ensures locs[i].code != locs[j].code
    {
      assert locs[i] in locs && locs[j] in locs;
      FixedNotZero(locs, src, locs[i]);
      FixedNotZero(locs, src, locs[j]);
      assert locs'[i].code != locs'[j].code;
    }
  }

  lemma FixedNotZero(locs: seq<Location>, src: Source, l: Location)
    requires Parsed(locs, src) && l in locs
    ensures l.place in Fixed(locs, src) && Fixed(locs, src)[l.place] != "0"
    ensures l.code != "0" ==> Fixed(locs, src)[l.place] == l.code
  {
    var slot := FixedAt(locs, src, l);
    assert IntOf("0") == 0;
    if slot != -1 {
      assert IntOf(StrOf(Highest(locs) + 1 + slot)) > 0;
    }
  }

  lemma DistinctAfter(locs: seq<Location>, src: Source, i: nat, j: nat)
    requires Parsed(locs, src) && DistinctNonzero(locs) && i < j < |locs|
    ensures locs[i].place in Fixed(locs, src) && locs[j].place in Fixed(locs, src)
    ensures Fixed(locs, src)[locs[i].place] != Fixed(locs, src)[locs[j].place]
  {
    var l, m := locs[i], locs[j];
    assert l in locs && m in locs;
    FixedNotZero(locs, src, l);
    FixedNotZero(locs, src, m);
    if l.code == "0" {
      FixedIsFresh(locs, src, l, m);
    } else if m.code == "0" {
      FixedIsFresh(locs, src, m, l);
    }
  }

  lemma NothingToFix(locs: seq<Location>, src: Source)
    requires Parsed(locs, src) && Errors(locs) == []
    ensures Fixed(locs, src) == src
  {
  }

  // ----- the script

  /** The module's list of all codes, which every reading extends, and the source files. */
  class Script {
    var codes: seq<Location>
    var source: Source

    constructor (source: Source)
      ensures codes == [] && this.source == source
    {
      codes, this.source := [], source;
    }

    method ReadErrorCodes(parsed: seq<Location>) returns (errors: seq<Location>)
      modifies this`codes
      ensures codes == old(codes) + parsed
      ensures errors == Errors(parsed)
    {
      var seen: map<string, Location> := map[];
      var dups: set<string> := {};
      errors := [];
      for i := 0 to |parsed|
        invariant codes == old(codes) + parsed[..i]
        invariant Reading(seen, dups, errors) == ReadAll(parsed[..i])
      {
        var loc := parsed[i];
        assert parsed[..i + 1][..i] == parsed[..i];
        codes := codes + [loc];
        var code := loc.code;
        if code !in seen {
          seen := seen[code := loc];
        } else {
          if code !in dups {
            dups := dups + {code};
            errors := errors + [seen[code]];
          }
          errors := errors + [loc];
        }
      }
      assert parsed[..|parsed|] == parsed;
      if "0" in seen {
        errors := errors + [seen["0"]];
      }
    }

    method CheckErrorCodes(parsed: seq<Location>) returns (ok: bool)
      modifies this`codes
      ensures ok <==> DistinctCodes(parsed) && forall l | l in parsed :: l.code != "0"
    {
      var errors := ReadErrorCodes(parsed);
      CheckIffDistinct(parsed);
      return |errors| == 0;
    }

    method GetNextCode(parsed: seq<Location>) returns (next: Option<nat>)
      requires AllCodes(parsed) && AllCodes(codes)
      modifies this`codes
      ensures codes == if old(codes) == [] then parsed else old(codes)
      ensures next == NextCode(codes)
      ensures next.Some? ==>
                && (exists k :: 0 <= k < |codes| && IntOf(codes[k].code) + 1 == next.value)
                && (forall k | 0 <= k < |codes| :: IntOf(codes[k].code) < next.value)
    {
      hide IntOf, Highest;
      if !(|codes| > 0) {
        var _ := ReadErrorCodes(parsed);
      }
      if |codes| < 2 {
        return None;
      }
      var highest := Reduce(codes);
      return Some(highest + 1);
    }

    method ReplaceBadCodes(errors: seq<Location>, nextCode0: nat)
      requires AllCodes(errors)
      modifies this`source
      ensures source == Replace(old(source), Zeros(errors), nextCode0)
    {
      hide Zeros, IntOf, StrOf, IsCode;
      var nextCode := nextCode0;
      var zeroErrors := Zeros(errors);
      for i := 0 to |zeroErrors|
        invariant nextCode == nextCode0 + i
        invariant source == Replace(old(source), zeroErrors[..i], nextCode0)
      {
        assert zeroErrors[..i + 1][..i] == zeroErrors[..i];
        source := source[zeroErrors[i].place := StrOf(nextCode)];
        nextCode := nextCode + 1;
      }
      assert zeroErrors[..|zeroErrors|] == zeroErrors;
    }

    /** A run with `--fix` on freshly parsed files: false stands for the TypeError of
        getNextCode. */
    method Fix(parsed: seq<Location>) returns (completed: bool)
      requires codes == [] && Parsed(parsed, source)
      modifies this
      ensures completed <==> |parsed| >= 2
      ensures source == if completed then Fixed(parsed, old(source)) else old(source)
    {
      hide Errors, Zeros, Replace, Highest, IntOf;
      ErrorsAreCodes(parsed);
      var errors := ReadErrorCodes(parsed);
      assert codes == parsed;
      var next := GetNextCode(parsed);
      if next.None? {
        return false;
      }
      if |errors| == 0 {
        NothingToFix(parsed, source);
      } else {
        ReplaceBadCodes(errors, next.value);
      }
      return true;
    }
  }

  /** A source with a single assertion whose code is zero: there is an error to repair, and no
      next code to repair it with. */
  lemma SingleZeroFails()
    ensures var p := Place("a", 1);
            var locs := [Location(p, "0")];
            Parsed(locs, map[p := "0"]) && Errors(locs) != [] && NextCode(locs) == None
  {
    var l := Location(Place("a", 1), "0");
    assert IntOf("0") == 0;
    ZeroReported([l], l);
  }
}
