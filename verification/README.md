# Verified models of the build and lint tooling

This project models the stateful core of the repository's Python tooling in Dafny 4.11 and
proves what that code is for. It covers six programs:

* **cpplint** (`buildscripts/cpplint.py`): the forward and backward bracket matchers, the text
  matcher, the nesting tracker with its handling of `#if`/`#else`/`#endif`, the line cleansers,
  and the category filters.
* **libdeps** (`site_scons/libdeps.py`): the memoised search for transitive library dependencies
  with its cycle report, and the sorted link list.
* **parallel_process** (`buildscripts/clang_format.py`): the work queue shared by worker threads.
* **LogAppender** (`buildscripts/buildlogger.py`): the buffer that retries failed batches.
* **the test selector** (`buildscripts/resmokelib/selector.py`).
* **the assertion code checker** (`buildscripts/errorcodes.py`).

`dafny verify dfyconfig.toml` checks everything. No file includes another; the modules import
each other by name.

## How the files fit together

| file | contents |
|---|---|
| `Chars.dfy` | characters, and the string operations that the Python code relies on |
| `Dyck.dfy` | the reference for the matchers: a grammar of balanced text, and a recogniser proved to accept exactly that grammar |
| `BracketScan.dfy` | the matchers as loops, each proved to compute a function |
| `BracketTheorems.dfy` | what these functions mean in terms of the grammar |
| `AngleBrackets.dfy` | the forward matcher from `<`, with its own reference matcher |
| `AngleBack.dfy` | the backward matcher from `>`, with its own reference matcher |
| `TemplateArgs.dfy` | the look-ahead for template argument lists |
| `Nesting.dfy` | one step of the nesting tracker on values, and the erasure of `#else` regions |
| `NestingDepth.dfy` | what the nesting stack means in terms of the braces of the text |
| `NestingEvents.dfy` | the same for any lines, in terms of declarations and tokens |
| `NestingBranches.dfy` | the stack with which each branch of a conditional begins |
| `NestingLines.dfy` | which lines are directives, declarations and tokens, as text, and what they do to a block |
| `NestingText.dfy` | erasure by deleting text, with the case in which it fails |
| `NestingHeap.dfy` | the tracker with block objects on the heap, refining the value model |
| `LibdepsGraph.dfy`, `Libdeps.dfy`, `LibdepsLink.dfy` | reachability, the search on node objects, and link lists |
| `ParallelProcess.dfy` | the transition system over all interleavings |
| `ErrorCodes.dfy`, `ErrorText.dfy`, `LogAppender.dfy`, `Selector.dfy`, `Filters.dfy` | the smaller programs |
| `FilterText.dfy` | filter lists and configuration lines as text |
| `Comments.dfy`, `Cleansing.dfy` | the line cleansers |
| `RawStrings.dfy`, `Collapsing.dfy` | what becomes of the raw strings of a file, and of the escapes, literals and numbers of a line |

Imperative code appears as methods and classes. Each is proved equal to a specification function
or against a direct property; the lemmas then state what those functions achieve, against a
definition that does not follow the code (a grammar, reachability, a multiset, a set of tests).

## Where the code differs from what one would expect

* **Erasure of `#else` regions.** The comment in the source says that these lines do not affect
  the nesting stack. This holds in the sense that leaving out the calls of `Update` for them
  changes nothing, for every file (`RunsAgree`, `BranchesErased`). It does not hold in the sense
  of deleting their text: the look-ahead from a class head reads through the region.
  `TextErasedIff` gives the exact condition, `TextNotErased` a file for which the two differ.
* **The previous stack top.** The comment in `Update` says that the stack is not modified in
  place. The kept object is the live one, and later lines change its fields; the model keeps the
  reference. `NestingHeap.NestingState.Update` says exactly when the parentheses of that object
  change, and `PreviousTopChanges` has an input for which they do. What does hold is that the
  saved stacks share no object with the live stack, and this is part of `Valid`.
* **Filters in one file.** Values are applied in reverse order of reading, so a nearer directory
  overrides a farther one, but within one `CPPLINT.cfg` the first line that has an opinion wins
  (`FirstLineDecides`).
* **A bad filter.** A filter without a sign raises `ValueError` after the list has been extended,
  and the list is not restored (`Filters.LintState.ProcessFile`; `UnsignedFilterStays` has an
  input).
* **Order of log lines.** A retried line is sent after newer lines. `OrderIffNeverSwaps` says
  exactly when the order is lost, `RetriedLineArrivesLate` is an example.
* **File lists with tags.** A list of included files together with an exclusion by tag also keeps
  tests that are not listed, and together with an inclusion by tag it is a union
  (`Selector.FilterJstests`; `ListAndExclusion` and `ListAndInclusion` have such tests).
* **The next code.** With fewer than two codes `getNextCode` raises `TypeError`, so a repair of a
  single zero code does not complete (`ErrorCodes.Script.Fix`; `SingleZeroFails` has a source).
* **Raw strings.** When a line ends inside of a raw string, the text before that raw string is
  kept as it is. `FreeIffNoneBefore` says that a raw string start is left exactly if one lies
  wholly in that text, and `EarlierRawStringStays` has such a line.
* **Repair of codes.** The substitution rewrites every number after an opening parenthesis on the
  line, so an argument of a nested call is overwritten too (`OnlyCodeChangesIff`,
  `OtherNumberLost`).

## Model

| member | source | states |
|---|---|---|
| `Dyck.GroupIffClosed` | buildscripts/cpplint.py:1456-1497 | the reference matcher closes after n characters exactly when the bracket and these characters derive from the grammar of balanced text; both directions |
| `Dyck.GroupPrefixFree` | buildscripts/cpplint.py:1456-1497 | no balanced group is a proper prefix of another, so a match is the shortest and the only one |
| `Dyck.MirrorGroup` | buildscripts/cpplint.py:1577-1612 | a text is a group exactly when its mirror image is, which is what lets one reference serve both directions |
| `BracketScan.FindEndOfExpressionInLine` | buildscripts/cpplint.py:1378-1453 | the index loop with its shared stack computes FindEnd, for every line, start and stack |
| `BracketScan.PopWhile` | buildscripts/cpplint.py:1415-1416 | the inner loop removes exactly the guessed angle brackets on top |
| `BracketScan.CloseExpression` | buildscripts/cpplint.py:1456-1497 | the loop over lines computes Close; a success lies strictly after the start and comes with its line |
| `BracketScan.ClosePast` | buildscripts/cpplint.py:1479-1497 | every start, angle brackets included, ends in failure or in a position strictly after it |
| `BracketScan.FindStartOfExpressionInLine` | buildscripts/cpplint.py:1500-1574 | the backward loop with its extra decrement computes FindStart; what that means is stated by FindStartMeaning from a closing bracket and by ReverseAngleIs from `>` |
| `BracketScan.ReverseCloseExpression` | buildscripts/cpplint.py:1577-1612 | the loop over earlier lines computes ReverseClose; what that means is stated by ReverseIffGroup, ReverseAngleIs and NoTemplateEnd |
| `BracketScan.GetTextInside` | buildscripts/cpplint.py:4583-4636 | the punctuation loop computes Inside, the missing pattern and the mismatches included |
| `BracketTheorems.EndStepMeaning` | buildscripts/cpplint.py:1391-1453 | one character changes the stack without its angle brackets exactly as the reference matcher would |
| `BracketTheorems.FindEndMeaning` | buildscripts/cpplint.py:1378-1453 | on a line, for every stack that began at a round, square or curly bracket, the scan ends as the reference matcher does, in all three outcomes |
| `BracketTheorems.ResumeMeaning` | buildscripts/cpplint.py:1479-1497 | over any number of lines the answer is that of the reference matcher on the concatenated text: `<`, `>`, `<<`, `->`, `operator` and `;` never change it |
| `BracketTheorems.CloseIffGroup` | buildscripts/cpplint.py:1456-1497 | from a round, square or curly bracket, CloseExpression returns a position if and only if the text up to it is a balanced group |
| `BracketTheorems.CloseTotal` | buildscripts/cpplint.py:1456-1497 | it fails if and only if no position of the file closes a balanced group |
| `AngleBrackets.ReadMeans` | buildscripts/cpplint.py:1391-1450 | from a template bracket, each character acts as in a reference matcher that counts angle brackets outside of round, square and curly ones and ignores them inside |
| `AngleBrackets.AngleCloseIs` | buildscripts/cpplint.py:1456-1497 | over any number of lines CloseExpression from a template bracket is that reference matcher, in its success, its position and its failure; a success ends at `>` after text whose round, square and curly brackets are balanced |
| `AngleBrackets.NoTemplateStart` | buildscripts/cpplint.py:1396-1406 | from a `<` that is the second half of a shift or names an operator, the search goes on to the next bracket of the line: at a round, square or curly one it is the search from there, at a template bracket the reference matcher from there, even where a search that starts there fails because of `<=` or `<<`; it fails if a semicolon, a closing bracket or the end of the line comes first |
| `BracketTheorems.StartStepMeaning` | buildscripts/cpplint.py:1513-1574 | one backward character, also when it skips a second one, acts as the reference matcher on the mirrored text |
| `BracketTheorems.FindStartMeaning` | buildscripts/cpplint.py:1500-1574 | the same for a line, in all three outcomes |
| `BracketTheorems.ReverseIffGroup` | buildscripts/cpplint.py:1577-1612 | from a closing bracket, ReverseCloseExpression returns a position if and only if the text from it is a balanced group |
| `AngleBack.StepReads` | buildscripts/cpplint.py:1513-1574 | from `>`, each step of the backward loop, skips included, acts as a reference matcher that reads one character at a time to the left, counts angle brackets outside of round, square and curly ones and ignores them inside |
| `AngleBack.ReverseAngleIs` | buildscripts/cpplint.py:1577-1612 | over any number of lines ReverseCloseExpression from the `>` of a template argument list is that reference matcher, in its success, its position and its failure; a success is a `<` before the start, and the text between the two is balanced |
| `AngleBack.NoTemplateEnd` | buildscripts/cpplint.py:1522-1530 | from the `>` of an arrow, a comparison or an operator name, the search is the one from the bracket before it on the line; it fails if a semicolon, an opening bracket or the start of the line comes first |
| `AngleBack.OperatorIff` | buildscripts/cpplint.py:1526-1529 | text ends in the name of an operator exactly when the word `operator`, not the end of a longer word, and blanks end it |
| `AngleBack.SpacedIff` | buildscripts/cpplint.py:1528 | a `>` belongs to a comparison exactly when a blank, it, `=` and a blank stand in a row |
| `AngleBack.NoSearch` | buildscripts/cpplint.py:1479-1596 | both matchers fail from a position without a bracket of their side, the forward one also at `<<` and `<=` |
| `BracketTheorems.CloseThenReverse` | buildscripts/cpplint.py:1456-1612 | matching back from the end that CloseExpression found returns the line and column where it started, over any number of lines |
| `BracketTheorems.ReverseThenClose` | buildscripts/cpplint.py:1456-1612 | and conversely |
| `BracketTheorems.InsideAgreesWithFindEnd` | buildscripts/cpplint.py:4606-4636 | the two independently written matchers agree: text is returned exactly when FindEndOfExpressionInLine closes, and it is the text strictly inside; otherwise nothing |
| `BracketTheorems.InsideAsserts` | buildscripts/cpplint.py:4611-4618 | the assertions fail exactly when the match of the start pattern does not end with an opening bracket; without a match there is no text |
| `BracketTheorems.InsideIffBalanced` | buildscripts/cpplint.py:4606-4636 | the returned text is the one balanced text that is followed by the partner of the opening bracket |
| `TemplateArgs.InTemplateArgumentList` | buildscripts/cpplint.py:2254-2304 | the loop terminates on every file and computes InTemplate; what that means is stated by the two rows below |
| `TemplateArgs.FirstDecisive` | buildscripts/cpplint.py:2264-2303 | over any number of lines, the first decisive character decides: `{`, `}` and `;` say no, `>`, `=`, `[`, `]` and `.` say yes, `<` says no without a partner and otherwise leaves it to the text after the partner |
| `TemplateArgs.NothingDecides` | buildscripts/cpplint.py:2264-2304 | without a decisive character up to the end of the file the answer is no |
| `TemplateArgs.OneHop` | buildscripts/cpplint.py:2264-2303 | every round answers or moves strictly forward in line and column, also across a matched template bracket |
| `Nesting.NamespaceDecl` | buildscripts/cpplint.py:2418-2428 | each namespace declaration consumes part of the line, so the loop over them ends; which lines declare one is stated by NamespaceIff |
| `BranchErasure.AgreeStep` | buildscripts/cpplint.py:2306-2360 | one line keeps the relation between the full run and the run without `#else` regions: equal outside of them, put aside inside |
| `BranchErasure.RunsAgree` | buildscripts/cpplint.py:2306-2525 | for every file and any directives, the two runs stay related to the end |
| `BranchErasure.BranchesErased` | buildscripts/cpplint.py:2306-2525 | for well nested conditionals of any depth the stack is the one without the `#else` regions, and no conditional is left open |
| `BranchErasure.StretchErased` | buildscripts/cpplint.py:2306-2525 | the same for every stretch that opens and closes its own conditionals, from any state, also inside an `#else` region; the conditionals around it are unchanged |
| `NestingBranches.BranchStartsOver` | buildscripts/cpplint.py:2331-2342 | whatever the lines from an `#if` to any of its `#else` or `#elif` hold, other conditionals included, that branch begins with the stack from before the `#if`, and the conditionals around it are as they were |
| `NestingText.LikeRun` | buildscripts/cpplint.py:2363-2525 | two runs over equal lines at different line numbers keep the same blocks up to line numbers, as long as the look-aheads that the code makes agree |
| `NestingText.LikeDeclare` | buildscripts/cpplint.py:2435-2455 | the declarations of a line leave alike stacks alike if and only if the look-ahead agrees, where a look-ahead is made only for a class head outside of parentheses |
| `NestingText.DeclaredAlikeIff` | buildscripts/cpplint.py:2410-2455 | over a whole run, the stacks after the declarations of every line are alike if and only if every look-ahead that is made agrees |
| `NestingText.TextErasedIff` | buildscripts/cpplint.py:2316-2322 | for every file, deleting the text of all `#else` regions keeps the stack after each declaration if and only if it keeps the answer of each look-ahead |
| `NestingText.TextErased` | buildscripts/cpplint.py:2316-2322 | then the file without that text also ends with the same blocks, up to line numbers, and the same conditionals |
| `NestingText.TextNotErased` | buildscripts/cpplint.py:2316-2322 | a five line file whose nesting stack changes when its `#else` region is deleted, and whose look-ahead does too |
| `NestingDepth.LineDepth` | buildscripts/cpplint.py:2488-2525 | the tokens of a line change the number of opened blocks by its opening less its closing braces, and leave the blocks below that it does not close |
| `NestingDepth.DepthFollowsBraces` | buildscripts/cpplint.py:2363-2525 | the same over any lines without directives, declarations and access specifiers, from any stack and for any division of it: blocks that the text does not close stay in place with all attributes, parentheses aside |
| `NestingDepth.MatchedBraces` | buildscripts/cpplint.py:2363-2525 | such lines with matching braces leave every block with all attributes, parentheses aside, and every conditional as it was |
| `NestingDepth.ClassBegins` | buildscripts/cpplint.py:2435-2455 | a class head outside of parentheses and of template arguments declares a block above the stack, whose first token is looked for on the same line and after it |
| `NestingDepth.NamespaceBegins` | buildscripts/cpplint.py:2418-2428 | so does a namespace; it is open at once if its brace is on the line; NamespaceOnStack starts from the text |
| `NestingLines.DirectiveIff` | buildscripts/cpplint.py:2327-2346 | for every line, it opens, turns or closes a conditional exactly when its text is blanks, `#`, blanks and one of the words for that, and no word goes on after it |
| `NestingLines.NamespaceIff` | buildscripts/cpplint.py:2418-2428 | a line declares a namespace with a name and a rest exactly when its text is blanks, the word `namespace`, blanks, the longest name of word characters and colons, and that rest |
| `NestingLines.NamespacePushed` | buildscripts/cpplint.py:2413-2428 | a line with such text and a brace pushes an open namespace of that name and is read on after the brace |
| `NestingLines.NamespaceOnStack` | buildscripts/cpplint.py:2363-2525 | after Update of such a line the namespace is open, with its name, on top of the blocks from before |
| `NestingLines.TokenIff` | buildscripts/cpplint.py:2491-2494 | the first token of a line is its first brace, semicolon or closing parenthesis, and the rest is what follows it |
| `NestingLines.ExternIff` | buildscripts/cpplint.py:2502-2503 | a block is one for C linkage exactly when the text is `extern`, a quoted string and a brace |
| `NestingLines.BareColonIff` | buildscripts/cpplint.py:2094 | a line makes a class derived exactly when it has a colon without another next to it |
| `NestingLines.NewClass` | buildscripts/cpplint.py:2058-2076 | a class head pushes a block with the name, line and indent of the head, not open and not derived, private for a class and public for a struct |
| `NestingLines.IndentIs` | buildscripts/cpplint.py:1680-1693 | the indent is the number of blanks before the first other character, and 0 if there is none or it is white space |
| `NestingLines.AsmLife` | buildscripts/cpplint.py:2391-2408 | when a block enters, leaves and stays in inline assembly, and how its parentheses are counted |
| `NestingLines.BracePushes` | buildscripts/cpplint.py:2502-2507 | a brace on a line without declarations opens a block for C linkage after `extern`, otherwise a plain one, and one of assembly exactly after an assembly keyword; the blocks below only have their parentheses counted |
| `NestingLines.AttributesChange` | buildscripts/cpplint.py:2457-2470 | after a line without declarations and tokens, exactly when the innermost class is derived and what its access is; nothing else changes |
| `Chars.CountIs` | buildscripts/cpplint.py:2086 | counting is multiplicity |
| `NestingDepth.DeclaredBlockOpens` | buildscripts/cpplint.py:2496-2501 | from the line of its declaration on, a class or namespace whose first token is a brace is in its place on the stack, as long as the text after that brace closes no more than it opens |
| `NestingDepth.DeclaredBlockCloses` | buildscripts/cpplint.py:2496-2524 | it is gone after the matching brace, with everything below as before the declaration |
| `NestingDepth.DeclarationDropped` | buildscripts/cpplint.py:2509-2519 | a forward declaration or a parameter leaves no block, whether it ends on its line or later |
| `NestingEvents.LineReads` | buildscripts/cpplint.py:2363-2525 | what Update does to the blocks of any line is what the events of that line (declarations, opening braces, ends, closing braces) do to their frames |
| `NestingEvents.BlocksFollowEvents` | buildscripts/cpplint.py:2306-2525 | for any lines that open and close their own conditionals, from any state, the open blocks are decided by the events of the text outside of `#else` regions |
| `NestingEvents.StaysIffConfined` | buildscripts/cpplint.py:2495-2524 | the blocks from before stay throughout if and only if the events close only blocks of their own |
| `NestingEvents.OpenedExactly` | buildscripts/cpplint.py:2495-2524 | the number of opened blocks is that of opening less closing braces, plus the closing braces that meet no block or an unopened one; for every stack and every list of events |
| `NestingEvents.OpenBlocks` | buildscripts/cpplint.py:2363-2525 | the same for any lines with conditionals, and for lines without declarations in terms of the braces of their text |
| `NestingEvents.DeclaredStays` | buildscripts/cpplint.py:2496-2501 | a declared block is in its place from its brace on, whatever is declared inside it |
| `NestingEvents.NeutralBlock` | buildscripts/cpplint.py:2495-2524 | blocks around a body that leaves the stack as it was do so too, declared or not; so does a declaration that is dropped |
| `NestingEvents.NeutralConcat` | buildscripts/cpplint.py:2489-2525 | two such pieces one after the other leave the stack as it was |
| `NestingEvents.NeutralText` | buildscripts/cpplint.py:2363-2525 | any lines, with declarations and conditionals at any depth, that are made of such pieces leave every block and every conditional in place |
| `NestingHeap.BlockInfo.Copy` | buildscripts/cpplint.py:2330-2342 | a copied block has equal attributes |
| `NestingHeap.BlockInfo.Parenthesize` | buildscripts/cpplint.py:2391-2408 | the in-place update of parentheses and assembly state is that of the value model |
| `NestingHeap.DeepCopy` | buildscripts/cpplint.py:2330-2342 | equal blocks in new and distinct objects |
| `NestingHeap.NestingState.UpdatePreprocessor` | buildscripts/cpplint.py:2306-2360 | on objects, a directive (DirectiveIff says which lines are one) does what it does on values, and the live stack shares no object with any saved stack |
| `NestingHeap.NestingState.OpenConditional` | buildscripts/cpplint.py:2327-2330 | `#if` saves copies only |
| `NestingHeap.NestingState.TurnToElse` | buildscripts/cpplint.py:2331-2342 | `#else` does what it does on values; the live stack then consists of new objects |
| `NestingHeap.NestingState.PutAside` | buildscripts/cpplint.py:2334-2339 | the first `#else` saves a copy of the live stack |
| `NestingHeap.NestingState.ReturnToIf` | buildscripts/cpplint.py:2341-2342 | the restored stack consists of new objects, the saved one is untouched |
| `NestingHeap.NestingState.CloseConditional` | buildscripts/cpplint.py:2346-2357 | `#endif` may reuse the saved objects, because no other stack refers to them |
| `NestingHeap.NestingState.CountParentheses` | buildscripts/cpplint.py:2389-2408 | only the innermost block changes |
| `NestingHeap.NestingState.ConsumeNamespaces` | buildscripts/cpplint.py:2413-2428 | the loop pushes the blocks of the value model and returns the same rest of the line; NamespacePushed says which |
| `NestingHeap.NestingState.ConsumeClass` | buildscripts/cpplint.py:2435-2455 | a class is pushed under exactly the conditions of the value model |
| `NestingHeap.NestingState.CheckBegin` | buildscripts/cpplint.py:2092-2095 | an unopened class with a bare colon becomes derived, in place |
| `NestingHeap.NestingState.UpdateAccess` | buildscripts/cpplint.py:2463-2470 | the access of the innermost class is set in place |
| `NestingHeap.NestingState.ConsumeBraces` | buildscripts/cpplint.py:2489-2525 | the token loop terminates and does what the value model does |
| `NestingHeap.NestingState.ConsumeToken` | buildscripts/cpplint.py:2495-2524 | one token opens, pushes or pops as in the value model, and touches no object outside of the live stack |
| `NestingHeap.NestingState.UpdateBlocks` | buildscripts/cpplint.py:2387-2525 | in-place updates leave every saved stack as it was |
| `NestingHeap.NestingState.Update` | buildscripts/cpplint.py:2363-2525 | the object program refines the value model and keeps the live and saved stacks apart; the previous top is the live object, and its parentheses are as before if and only if a directive replaced the stack or the line has as many opening as closing ones |
| `NestingHeap.PreviousTopChanges` | buildscripts/cpplint.py:2374-2382 | two lines after which the remembered previous top is the block that the first line opened, with one open parenthesis more than it had when the second line began |
| `NestingHeap.FindLastLine` | buildscripts/cpplint.py:2083-2090 | the first line from the class head on after which the braces balance, or 0 if there is none |
| `NestingHeap.TrackFile` | buildscripts/cpplint.py:5908-5912 | over a whole file the object program ends in the state of the value run, so all results about runs apply to it |
| `LibdepsGraph.ReachesByChild` | site_scons/libdeps.py:106-110 | reachability is one edge and then reachability or identity; both directions |
| `Libdeps.CachedReach` | site_scons/libdeps.py:88-93 | everything reachable from a cached node is cached and not on a cycle |
| `Libdeps.GatherChildren` | site_scons/libdeps.py:106-110 | the children and their dependencies together are exactly what is reachable |
| `Libdeps.Prepend` | site_scons/libdeps.py:112-115 | prepending a node while the error unwinds keeps the report a walk that is still to be closed, and stops once it is closed |
| `Libdeps.NotOnCycle` | site_scons/libdeps.py:98-110 | a node whose children are all cached is not its own dependency |
| `Libdeps.GetLibdeps` | site_scons/libdeps.py:83-93 | with any set of nodes under exploration: an answer is cached, an error is a report about a cycle through that path, no cache entry is lost, and the flags are back |
| `Libdeps.ComputeLibdeps` | site_scons/libdeps.py:95-119 | the search ends, because the nodes not under exploration get fewer, and returns exactly what is reachable |
| `Libdeps.Explore` | site_scons/libdeps.py:104-119 | the loop over the direct dependencies collects exactly the reachable nodes |
| `Libdeps.ExploreChild` | site_scons/libdeps.py:106-115 | a child that fails yields the report with this node prepended when it is on the cycle |
| `Libdeps.Query` | site_scons/libdeps.py:83-119 | an outermost query returns exactly the nodes reachable by one or more edges, or raises if and only if a cycle is reachable, with a closed walk without repeated nodes; all flags are clear |
| `Libdeps.Queries` | site_scons/libdeps.py:83-93 | over any sequence of queries, failed ones included, each memoised answer is the answer of a fresh search |
| `LibdepsLink.SortedByStr` | site_scons/libdeps.py:63-71 | sorted by string, each element of the set once |
| `LibdepsLink.LinkListUnique` | site_scons/libdeps.py:63-71 | with distinct strings a set has only one link list |
| `LibdepsLink.GetLinkList` | site_scons/libdeps.py:165-172 | a link list is returned exactly when no cycle is reachable, and it lists exactly the transitive dependencies |
| `LibdepsLink.AppendDirectLibdeps` | site_scons/libdeps.py:201-207 | edges are appended to a target that is an object, and nothing else changes |
| `LibdepsLink.RunEmitters` | site_scons/libdeps.py:209-256 | after all emitters the graph of the edge lists is the emitted one, ready for queries |
| `LibdepsLink.EmissionOrder` | site_scons/libdeps.py:209-256 | the emitted edges do not depend on the order of the emitters |
| `LibdepsLink.LinkListOrderFree` | site_scons/libdeps.py:165-172 | with distinct strings the link list does not depend on it either |
| `ParallelProcess.RunKeepsInv` | buildscripts/clang_format.py:313-378 | every step of every interleaving keeps the invariant on queue, event, result, lock and program counters |
| `ParallelProcess.ReturnsConjunction` | buildscripts/clang_format.py:313-378 | in every reachable state no item was taken twice; a finished run returns the conjunction of the verdicts, and true only after all calls |
| `ParallelProcess.StepDecreases` | buildscripts/clang_format.py:313-378 | every step of every thread decreases the measure |
| `ParallelProcess.RunsAreBounded` | buildscripts/clang_format.py:313-378 | no schedule is longer than the measure of its start |
| `ParallelProcess.NeverStuck` | buildscripts/clang_format.py:313-378 | with at least one worker, some thread can move until the function has returned |
| `ParallelProcess.Terminates` | buildscripts/clang_format.py:313-378 | no run is longer than a linear bound, and every run can go on until the function has returned |
| `ParallelProcess.EventStops` | buildscripts/clang_format.py:333-357 | from any state with the event set, on every schedule it stays set and each worker takes at most one more item, and only if it had passed the test before |
| `ErrorCodes.StrOf` | buildscripts/errorcodes.py:196-198 | a number written in decimal reads back as itself |
| `ErrorCodes.ReadAllMeans` | buildscripts/errorcodes.py:140-153 | the callback reports a location as often as it should, from the counts of its code, for every list of locations |
| `ErrorCodes.CheckIffDistinct` | buildscripts/errorcodes.py:124-169 | there are no errors if and only if all codes are distinct and none is zero |
| `ErrorCodes.ZeroReported` | buildscripts/errorcodes.py:157-160 | every location with code zero is reported |
| `ErrorCodes.ReplaceAt` | buildscripts/errorcodes.py:186-203 | a place ends with the number of the last error at it, and other places are unchanged |
| `ErrorCodes.FixedAt` | buildscripts/errorcodes.py:172-203 | after the repair nonzero locations have their code and each zero location has one of the new numbers |
| `ErrorCodes.FixedIsFresh` | buildscripts/errorcodes.py:172-203 | the new code of a zero location differs from every old code and from every other new one, although the first zero is listed more than once |
| `ErrorCodes.FixThenCheck` | buildscripts/errorcodes.py:301-313 | the check passes after the repair if and only if the nonzero codes were distinct |
| `ErrorCodes.NothingToFix` | buildscripts/errorcodes.py:172-203 | without errors the repair changes nothing |
| `ErrorCodes.Reduce` | buildscripts/errorcodes.py:119-120 | the reduction returns a code that occurs and is not exceeded |
| `ErrorText.SubMeans` | buildscripts/errorcodes.py:196-198 | on the text of a line, every number after an opening parenthesis becomes the new code, whichever of them the parser reads, and all other text stays |
| `ErrorText.ReadsNewCode` | buildscripts/errorcodes.py:172-203 | every parser whose choice among the numbers of a line does not depend on their digits reads the new code from a repaired line, and reads no code where it read none |
| `ErrorText.RepairReads` | buildscripts/errorcodes.py:186-203 | reading back the lines after all rewritings gives exactly what Replace does to the codes, so the results on codes are results on the text |
| `ErrorText.OnlyCodeChangesIff` | buildscripts/errorcodes.py:196-198 | only the assertion code changes if and only if every other such number was the new code already |
| `ErrorText.OtherNumberLost` | buildscripts/errorcodes.py:196-198 | an assertion with a zero code on whose line the repair also overwrites an argument of a nested call |
| `ErrorCodes.Script.ReadErrorCodes` | buildscripts/errorcodes.py:131-169 | the loop extends the global list and returns the errors of this parse only |
| `ErrorCodes.Script.CheckErrorCodes` | buildscripts/errorcodes.py:124-128 | true if and only if the parsed codes are distinct and nonzero |
| `ErrorCodes.Script.GetNextCode` | buildscripts/errorcodes.py:110-121 | parses only when the list is empty; the result is one more than a code that occurs and above all others, or the failure on fewer than two codes |
| `ErrorCodes.Script.ReplaceBadCodes` | buildscripts/errorcodes.py:172-203 | the loop gives the places of the zero errors consecutive numbers; each place is represented by the code read from its line, as RepairReads justifies |
| `ErrorCodes.Script.Fix` | buildscripts/errorcodes.py:301-313 | the whole command with repair: the repaired source if there are at least two codes, the old source otherwise |
| `ErrorCodes.SingleZeroFails` | buildscripts/errorcodes.py:116-121 | a source with one assertion whose zero code is an error and for which there is no next code |
| `LogAppender.RunConserves` | buildscripts/buildlogger.py:253-290 | over every sequence of calls and answers the appended lines are the lines in accepted batches and in both buffers, with multiplicity; a positive limit bounds the buffer |
| `LogAppender.SentAtMostOnce` | buildscripts/buildlogger.py:274-290 | a line appended once is in at most one accepted batch |
| `LogAppender.StepKinds` | buildscripts/buildlogger.py:265-290 | a call only stores its line if and only if the buffer has room for another and the last attempt to send is recent; then nothing is sent |
| `LogAppender.LastSentIs` | buildscripts/buildlogger.py:265-290 | over every run the time kept is that of the last attempt to send, or of the start, and lines are left in the buffer if and only if the last call was within both limits |
| `LogAppender.OrderIffNeverSwaps` | buildscripts/buildlogger.py:278-290 | for every run, delivery keeps the order of appending if and only if no accepted batch has new lines before retried ones that would read differently after them; once lost, the order stays lost |
| `LogAppender.OrderIffNeverMixes` | buildscripts/buildlogger.py:278-290 | without an accepted batch of both new and retried lines the order is kept; if no two entries are equal, such a batch always loses it |
| `LogAppender.RetriedLineArrivesLate` | buildscripts/buildlogger.py:279 | two calls after which the older line is delivered last |
| `LogAppender.Appender.Append` | buildscripts/buildlogger.py:265-270 | a call is one step of the runs above |
| `LogAppender.Appender.Send` | buildscripts/buildlogger.py:274-290 | so is a submit; it succeeds if and only if there was nothing to send or the callback accepted, and empties the buffer |
| `Selector.Partition` | buildscripts/resmokelib/selector.py:230-251 | the loop keeps exactly the patterns in one list and the normal forms of exactly the other names in the other, each name once |
| `Selector.MatchesMeans` | buildscripts/resmokelib/selector.py:196-227 | a file matches a list if and only if it is the normal form of a plain name in it or one of the files of a pattern in it |
| `Selector.PopAll` | buildscripts/resmokelib/selector.py:254-275 | under validation it succeeds if and only if the names are distinct and present, and otherwise reports the first offender; the result is the intersection, the universe is left with the difference |
| `Selector.FilterByFilename` | buildscripts/resmokelib/selector.py:179-227 | success if and only if the lists are legal; the three parts are disjoint, their union is the universe, and they are the matched files |
| `Selector.Judge` | buildscripts/resmokelib/selector.py:159-167 | the chain of tests gives the verdict of the tag option |
| `Selector.TagsMean` | buildscripts/resmokelib/selector.py:159-167 | an option for all tags asks for every one of them, an option for any tag for one of them |
| `Selector.SplitByTags` | buildscripts/resmokelib/selector.py:155-167 | the loop collects exactly the tests included and excluded by tag |
| `Selector.FilterJstests` | buildscripts/resmokelib/selector.py:105-176 | it succeeds if and only if the options are legal, and then returns exactly the tests that satisfy the selection predicate; every error case is named |
| `Selector.ListAndExclusion` | buildscripts/resmokelib/selector.py:174-176 | two tests for which an excluded tag does not remove a listed file, and an unlisted file stays |
| `Selector.ListAndInclusion` | buildscripts/resmokelib/selector.py:169-172 | two tests for which an included tag adds an unlisted file to a listed one |
| `Filters.DecideIsLast` | buildscripts/cpplint.py:1071-1084 | the last filter that applies to a category decides it |
| `Filters.DecideNone` | buildscripts/cpplint.py:1071-1084 | without one nothing is decided, and only then |
| `Filters.DecideConcat` | buildscripts/cpplint.py:1071-1084 | a later part of the list overrides an earlier one, category by category |
| `FilterText.AppliesIff` | buildscripts/cpplint.py:1071-1084 | a filter applies to a category exactly when it is a sign and a prefix of the category |
| `FilterText.SplitIs` | buildscripts/cpplint.py:804 | splitting undoes the joining with commas of pieces that have none |
| `FilterText.SplitMeans` | buildscripts/cpplint.py:804 | every text is the pieces it is split into, joined with commas, and these have none |
| `FilterText.CleanedMeans` | buildscripts/cpplint.py:804-807 | the filters are exactly the pieces that are not blank, in their order, without blanks at their ends |
| `FilterText.SettingIff` | buildscripts/cpplint.py:5949-5958 | a configuration line is a filter, an exclusion or the end of the search exactly when its text up to the first `#` is that name and, after the first equals sign, that value, with any blanks around them; it says nothing exactly when that text is blank |
| `FilterText.ReachedMeans` | buildscripts/cpplint.py:5934-5990 | the directories looked at are those up to the first that ends the search, or up to the root |
| `Filters.ScanLinesMeans` | buildscripts/cpplint.py:5949-5985 | a config file excludes if and only if one of its lines does; its values are collected in order, and any line of no parent ends the search |
| `Filters.ScanLevelsMeans` | buildscripts/cpplint.py:5937-5990 | unless the file is excluded, the values collected are those of the directories up to the first one without a parent |
| `Filters.ExcludedMeans` | buildscripts/cpplint.py:5937-5990 | a file is excluded if and only if a line in one of these directories says so |
| `Filters.NearestDirectoryDecides` | buildscripts/cpplint.py:5992-5995 | the nearest directory with an opinion on a category decides it; without one the list before decides |
| `Filters.FirstLineDecides` | buildscripts/cpplint.py:5992-5995 | within a file the first line with an opinion decides |
| `Filters.AddUntilBadMeans` | buildscripts/cpplint.py:802-811 | adding stops at the first value with an unsigned filter; it completes if and only if there is none, and otherwise has changed the list |
| `Filters.LintState.AddFilters` | buildscripts/cpplint.py:802-811 | the cleaned items are appended; failure if and only if a filter has no sign |
| `Filters.LintState.SetFilters` | buildscripts/cpplint.py:784-800 | the list becomes the defaults and the given items |
| `Filters.LintState.ShouldPrintError` | buildscripts/cpplint.py:1059-1084 | printed if and only if not suppressed, confident enough and not decided against by the last filter that applies |
| `Filters.CollectFilters` | buildscripts/cpplint.py:5934-5990 | the walk towards the root computes the scan of the directory levels |
| `Filters.LintState.ProcessConfigOverrides` | buildscripts/cpplint.py:5924-5997 | excluded files change nothing; otherwise the filters are those in force for the directory, or the call fails with a changed list |
| `Filters.LintState.ProcessFile` | buildscripts/cpplint.py:6000-6085 | on every return path the filters are the ones before the call; it raises, and leaves them changed, exactly when a reached config has an unsigned filter and none excludes the file |
| `Filters.UnsignedFilterStays` | buildscripts/cpplint.py:6015-6017 | a config with one unsigned filter, after which the filters of the linter are not the defaults that it has as a backup |
| `Comments.StartIff` | buildscripts/cpplint.py:1225-1233 | a line begins a comment exactly when it is blanks, `/*` and text without `*/` |
| `Comments.EndIff` | buildscripts/cpplint.py:1236-1242 | a line ends a comment exactly when it is any text, `*/` and blanks |
| `Comments.RemoveMultiLineComments` | buildscripts/cpplint.py:1253-1266 | the in-place loop computes Remove, with the line number of an unfinished comment |
| `Comments.RemoveMultiLineCommentsFromRange` | buildscripts/cpplint.py:1245-1250 | exactly the range is overwritten |
| `Comments.RemoveExactly` | buildscripts/cpplint.py:1253-1266 | a line is replaced if and only if a line-by-line reading has it inside a comment and an end follows |
| `Comments.RemoveLeaves` | buildscripts/cpplint.py:1257-1264 | afterwards no comment start is left, or the first one left is the reported one and no end follows it |
| `Comments.RemoveTwice` | buildscripts/cpplint.py:1253-1266 | a second run changes nothing and reports the same line |
| `Cleansing.CleanseRawStrings` | buildscripts/cpplint.py:1159-1222 | the loops terminate and compute CleanseLines, with one output line for each input line; what these are is stated by the next rows |
| `RawStrings.InsideIff` | buildscripts/cpplint.py:1179-1217 | over a whole file, a line lies inside a raw string with a terminator exactly when that raw string begins on an earlier line and no line in between contains the terminator |
| `RawStrings.LineBecomes` | buildscripts/cpplint.py:1179-1218 | a line inside of a raw string that lacks the terminator becomes an empty string; a line outside is searched for raw strings, and is kept as it is if none starts on it |
| `RawStrings.LastLineBecomes` | buildscripts/cpplint.py:1183-1191 | the line with the terminator becomes its indentation, an empty string and the text after the first terminator, searched in turn |
| `RawStrings.StartIffText` | buildscripts/cpplint.py:1202 | a raw string starts at a position exactly when one of the five prefixes, not the end of a word, a quote, a delimiter and a parenthesis stand there; it gives the parts of the match |
| `RawStrings.ReplaceAll` | buildscripts/cpplint.py:1199-1216 | the raw strings at the end of a line that end on it become empty strings, the text around them stays, and no start is made that was not there |
| `RawStrings.FinishedLine` | buildscripts/cpplint.py:1199-1216 | a line with any number of raw strings that all end on it becomes the same line with each of them emptied |
| `RawStrings.UnfinishedLine` | buildscripts/cpplint.py:1199-1216 | a line on which a raw string does not end becomes the text before it and an empty string, and its terminator is looked for from then on; raw strings nested in it are emptied first |
| `Cleansing.ReplaceRawLoop` | buildscripts/cpplint.py:1196-1216 | the inner loop shortens the line in every round and leaves a proper terminator |
| `Cleansing.ReplaceRawLeaves` | buildscripts/cpplint.py:1196-1216 | a line that ends outside of a raw string has no raw string start left, one that ends inside ends with an empty string, a line without a start is kept |
| `Cleansing.UnfinishedMeans` | buildscripts/cpplint.py:1199-1216 | of a line that ends inside a raw string, the text before that raw string is kept, and it is a prefix of the line as it was |
| `Cleansing.FreeIffNoneBefore` | buildscripts/cpplint.py:1196-1216 | no raw string start is left if and only if the line ends outside of a raw string or no such start lies wholly in the text before the unfinished one |
| `Cleansing.CleansedIffNoneBefore` | buildscripts/cpplint.py:1181-1218 | the same for a line in its place in the file, inside a raw string or not |
| `Cleansing.EarlierRawStringStays` | buildscripts/cpplint.py:1196-1216 | a line whose first raw string is still there afterwards |
| `Cleansing.TerminatorMeansNotBlank` | buildscripts/cpplint.py:1182-1194 | a line that has the terminator has a character that is not blank, so the match for its indentation succeeds |
| `Cleansing.CollapseStrings` | buildscripts/cpplint.py:1311-1375 | the loop terminates in every branch and computes the collapsed line, which the next rows describe |
| `Collapsing.CollapsedIs` | buildscripts/cpplint.py:1311-1375 | every line reads as kept characters and escapes, and what is kept as pieces; include lines are kept, and of any other line exactly the shortened pieces are left |
| `Collapsing.DropEscapesIs` | buildscripts/cpplint.py:1325-1328 | of a text read from the left as escapes, each as long as possible, and other characters, exactly the other characters are left |
| `Collapsing.ReadEscapes` | buildscripts/cpplint.py:1123-1124 | every text reads in this way |
| `Collapsing.CollapseIs` | buildscripts/cpplint.py:1333-1375 | of text made of strings, character literals, numbers with digit separators and the text around them, that text is kept, literals become a pair of quotes, numbers lose only their separators, and everything from a quote without a partner on is kept |
| `Collapsing.ReadPieces` | buildscripts/cpplint.py:1333-1375 | every text is made of such pieces |
| `Collapsing.DigitsIff` | buildscripts/cpplint.py:1361 | a quote is a digit separator exactly when the text before it ends in a number that is not the end of a word |
| `Collapsing.IncludeIff` | buildscripts/cpplint.py:4386 | a line is an include line exactly when its text is `#`, `include` and a name between brackets or quotes, with blanks before each |
| `Cleansing.RoundShrinks` | buildscripts/cpplint.py:1333-1373 | each round leaves strictly less text, also in the branch for digit separators |
| `Cleansing.CollapseIsTidy` | buildscripts/cpplint.py:1311-1375 | every literal of the text after escapes are removed becomes empty, up to a last quote that has no partner |
| `Cleansing.CollapsedIsTidy` | buildscripts/cpplint.py:1311-1375 | the same for the collapsed line, unless it is an include line, which is kept |
| `Cleansing.CleansedLines.constructor` | buildscripts/cpplint.py:1285-1304 | the views have equal length and correspond line by line |

## Left out

- The patterns for class heads, access specifiers and inline assembly are arbitrary functions of a line; every result holds for all of them. Their regular expressions are not modelled.
- Error messages of the nesting tracker (end of block checks, indentation of access specifiers, completed blocks) and all other style checks of cpplint.
- `CleanseComments`, the removal of comments inside a line, is an arbitrary function of a line in `Cleansing`.
- NestingDepth.DepthFollowsBraces: excludes directives, declarations and access specifiers, because there all attributes of a block are kept; without that restriction NestingEvents.BlocksFollowEvents states which blocks are open, by kind and brace.
- NestingDepth.MatchedBraces: the same restriction, with NestingEvents.NeutralText as the result for all lines.
- NestingText.TextErased: for the state at the end of the file the condition is sufficient and not necessary, because a class head that is judged differently may be dropped again; NestingText.TextErasedIff is exact for the stacks after each declaration.
- NestingHeap.NestingState.Update: Python's stack lists are sequences in fields, so sharing of list objects is not modelled; sharing of block and conditional objects is.
- TemplateArgs.FirstDecisive: whether the guess is right about C++ is not stated, because the code only follows a heuristic.
- AngleBrackets.AngleCloseIs: that the position is the closing bracket of C++ is not stated, because the code only guesses there.
- AngleBack.ReverseAngleIs: nor is it stated of the opening one, for the same reason.
- ParallelProcess: exceptions raised by the work function and the count kept by `task_done` are left out; the verdict on an item is fixed before the run; the polling loop of the main thread counts as waiting.
- LibdepsLink.LinkListUnique: with equal strings the order of nodes depends on set iteration and is not determined.
- Builders, scanners, system libraries and the substitution of environment variables in libdeps.
- ErrorCodes.FixThenCheck: zero is taken to be written with one digit and each place to hold one code, as the parser of assertions produces them; the parsing of source files is not modelled.
- Cleansing.FreeIffNoneBefore: is about lines without newline characters, as splitting the file yields them; so are Cleansing.UnfinishedMeans, Cleansing.CleansedIffNoneBefore and Cleansing.CollapsedIsTidy, and the results on the text of a line in NestingLines, RawStrings and Collapsing.
- LogAppender: clock readings and callback answers are inputs; the network calls are not modelled.
- Selector.FilterJstests: glob expansion, path normalisation and the tags of a file are functions given as parameters; the type checks of the arguments and the selectors for C++ tests are left out.
- Filters.LintState.ProcessConfigOverrides: the config files are given as a list of lines for each directory, and pattern matching as a function; the line length setting and messages are left out.
- The JavaScript tests, and scripts that only start processes, move files or copy options.
