# Process expressions, path tries, render workers, includes and registration

A Dafny model of the parts of BlueKing BSCP whose behaviour is an algorithm or a protocol rather than plumbing, with
proofs of what those parts promise. `dafny verify dfyconfig.toml` checks everything.

| files | what they model |
|---|---|
| `Glob.dfy`, `GoRegex.dfy` | glob patterns, their translation to a Go regular expression, and what that expression accepts |
| `RangeRegex.dfy` | numeric ranges as lists of digit-class fragments |
| `Parse.dfy`, `Matching.dfy` | the bracket language: expansion of an expression into glob candidates, and matching |
| `Blocks.dfy` | what each kind of block selects, and how the parts of an expression compose |
| `Compression.dfy`, `List2Expr.dfy` | the printers: ID lists and name lists as expressions |
| `SingleName.dfy`, `SingleMatch.dfy`, `NameLists.dfy` | which printed name lists are matched without loss |
| `Slice.dfy`, `Segments.dfy`, `Scope.dfy` | Python slices, the five joined segments, and scopes resolved to process IDs |
| `PathTrie.dfy` | the path-conflict trie on the heap and the pairwise scan it stands in for |
| `Frames.dfy`, `RenderPool.dfy` | the length-prefixed frames, and the pool of render workers under every interleaving |
| `RenderAnswers.dfy` | what a call of the pool returns, exactly, and that calls can be brought to their end |
| `Ginclude.dfy` | recursive include expansion with its visited map and depth bound |
| `Etcd.dfy`, `Registry.dfy` | keys, leases and revisions; registration, keep-alive and the choice of a master |
| `KeepAlive.dfy` | what Register, the keep-alive loop and Deregister achieve, from every reachable state |
| `Text.dfy`, `Decimal.dfy` | the few functions of Go's `strings` and `strconv` that the above call |

## Form

Code that loops over arrays, maps and builders is written as methods with loops; each is tied by its `ensures` to a
function, and the lemmas are about that function. The two concurrent parts (render pool, registration) are state
machines whose steps are single reads, writes and field updates; theorems about them are about every run from the
initial state. Some long Go functions are cut into several methods: `fnmatchTranslate` into `ScanClass`,
`TranslateNext` and `FnmatchTranslate`; `Range2Re` into `SplitRanges`, `RangePartsToRe` and `Range2Re`;
`parseExp2UnixShellStyleMain` into `PrefixEach`, `CrossProduct`, `AppendTail` and the main loop; `compressRanges` into
`RunEnd`, `RunToText` and `CompressRanges`; `ScopeToCcIDs` into `IndexCandidates`, `LookUpIds` and the rest;
`insertPath` into `Descend`, `Walk`, `MarkEnd` and `InsertPath`.

## The main results

- **Expressions, end to end.** For an ID list, `Match` on the printed expression answers yes exactly for the decimal texts
  of its members (`IdsRoundTrip`). Five printed segments, expanded, compiled, matched against the joined process names and mapped back
  to IDs give exactly the processes that were asked for, in order (`PrintedScopePicksWanted`), and two numbers around a
  colon in the ID segment pick from those the ones at the positions between them (`ScopeSlices`). In between: an
  expression selects the names that split into names its parts select (`SelectsConcat`), a list what its words select,
  whatever white space is around them (`ListIsUnion`, `PaddingIgnored`), and letter ranges, number ranges, exclusions and
  plain words what one reads in them (`LetterPairMatches`, `NumberPairMatches`, `ExclusionMatches`, `WordMatches`); every range is covered exactly (`RangeExact`) by at most two
  fragments per digit (`FragmentCount`), whenever the splitter returns at all; the emitted regular expression compiles to
  the tokens of the glob pattern, which mean what direct glob matching means, exactly if no class name is in it
  (`TranslationFaithful`, `CompiledGlobMeansFnmatch`); and matching the joined text is the same as matching field by
  field, for all well-formed segments, exactly when no field holds the splitter (`LocalityExactly`).
- **Paths.** The heap trie represents exactly the inserted paths, and its verdict at each position is that of the
  pairwise scan, apart from one directory relation that is characterised exactly (`TrieAgreesWithScan`).
- **Render pool.** Under every interleaving of callers, watchdogs, workers and crashes, an answer that a caller gets is
  the worker's answer to that caller's own request (`OwnAnswer`); what a call returns is determined by that answer and by
  which of its steps failed (`OutcomeExactly`), and so is whether its worker is kept (`WorkerKeptExactly`). No slot is lost
  or shared (`SlotsConserved`), workers take turns (`WorkersTakeTurns`), and an idle worker that will be reused has empty
  pipes (`IdleWorkersQuiet`). A call on a free slot can always be answered (`AnswerReachable`), and one that hangs can be
  ended (`KilledReturns`).
- **Includes.** Expansion succeeds exactly when every chain of includes is short enough and resolves
  (`SucceedsIffChainsOk`), the visited check never changes the outcome (`VisitedNeverRejects`), and the error names a
  chain that is circular, unresolved or too deep indeed (`ErrorsAreRight`).
- **Registration.** In every reachable state a master flag rests on a key that was the oldest in the snapshot of the
  second read (`MasterWasOldest`). Two instances of a service can hold the flag by one snapshot exactly if one's key is a
  prefix of the other's (`SharedSnapshotExactly`). Any two masters of a service rest on one and the same entry, and then
  their keys nest; or the one that judged earlier had lost its entry by the snapshot of the other
  (`TwoMastersMeansLoss`). Only a check to which `isMaster` answers no clears a flag (`OnlyAnswerClears`). The keep-alive
  loop goes on until it is cancelled, whatever fails (`LoopsGoOn`), then ends (`CancelledLoopEnds`); and from wherever it
  stands it can bring a lost key back in at most sixteen steps (`KeepAliveRecovers`, `KeepAliveRestores`).

## What turned out not to hold

- `splitRangeLeft` does not return on some ranges of ints. Its upper bound can exceed the largest int; `strconv.Atoi` then
  saturates, its error is ignored, the next cursor wraps around to the least int, and from there the cursor never
  advances. The shortest such range from 1 is `[1-1000000000000000001]` (`EndlessSplit`). It returns exactly when all its
  upper bounds are ints (`SplitEndsExactly`), that is, when some rounding of begin to a power of ten lies between end and
  the largest int (`SplitFitsExactly`); every end up to 10^18 is fine (`SmallRangeFits`). In the specification functions
  such a call has the outcome `Endless`; methods require that this outcome does not occur.
- The comment on `splitRangeLeft` (`internal/expression/range2re.go:52`) promises that its last upper bound reaches the
  end. On 9..10 it stops one short of it (`NineTenShort`); the right split then supplies the last number. This happens
  exactly when begin rounds to end (`LastUpperShort`).
- Name lists are not matched without loss in general, although the comment at `internal/expression/list2expr.go:27`
  says so. Among several names, one is lost if it reads as a range (`a-c`, `1-3`), holds a comma, starts with `!` or has
  space around it, and one with `*` or `?` selects too much; alone, `*`, `?` and `[` matter, apart from the bare `[!]`,
  which is an ordinary text. `NamesRoundTripExactly` and, for the answers of `Match`, `NamesMatchExactly` give the
  condition, exact for all lists but those named under "Left out". The list holding only the empty name prints as an
  empty segment, which selects every name (`EmptyNameSelectsAll`, `SegmentMatchExactly`).
- The translation does not escape `[:` inside a class, where Go looks for a class name up to the next `:]`, also in a
  later class. For `[![:alpha:][y]`, two classes, Go sees one that holds the letters, and matches a text of one character
  (`NameMisread`). A pattern that has tokens compiles to them exactly if it holds no such name (`TranslationFaithful`).
- A slice bound that is no int counts as absent: `[10000000000000000000:]` keeps the whole list, where Python would keep
  nothing. It makes no difference exactly if it is a small begin or a large end, or if nothing is left anyway
  (`FittingExactly`).
- White space in a block that starts with `!` is part of what it excludes, although in a list it is ignored
  (`PaddingInExclusion`).
- A field that contains the splitter text can be misread (`SplitterInFieldMisreads`), by some segments for every such
  list of two or more fields (`LocalityExactly`).
- The trie does not see a conflict between a stored directory written with a trailing slash and a path below it; the
  scan does (`DirectoryMissed`). They differ on exactly those pairs (`PairsDiffer`).
- A request of 2^32 bytes or more wraps the length header, and some worker then has a run in which the caller gets an
  answer to something else (`OversizedMisanswered`).
- After an answer that cannot be decoded `exchange` asks for the worker to be reaped, which waits for a process that
  nobody kills (`UndecodedWaits`): unless the deadline passes just then, the call keeps its slot until that process ends
  by itself (`FatalWaits`).
- Two instances can hold the master flag at once (`SecondMasterReachable`). When an instance's key is gone, `isMaster` fails
  and the loops that call it skip the update, so that the flag outlives every later check while nothing lies under the
  key (`StaleFlagStays`); after `Deregister`, which does not stop those loops, it stays for ever
  (`DeregisteredStaysMaster`). The first read of `isMaster` is by prefix, so an instance that never registered is taken
  for one whose key extends its own (`NestedShare`).
- The keep-alive loop does not see to it that the key hangs on the lease it renews. When a put that `Register` gave up on
  takes effect after a second `Register`, the loop renews one lease and the key dies with another (`StrayLeaseReachable`,
  `StrayLeaseEnds`); only the round after that puts it again. A round makes the key hang on the instance's own lease
  unless it found key and lease in place and the key on another one (`HoldsOwnExactly`).
- A put under way during `Deregister`, even one that its goroutine has given up on, can bring the key back
  (`LatePutSurvives`), and no other request of the model can (`DeregisteredReturnsExactly`).

## Model

| member | source | states |
|---|---|---|
| `Glob.FnmatchTranslate` | internal/expression/match.go:26-69 | the scan emits the regular expression text of the specification, for every pattern |
| `Glob.ScanClass` | internal/expression/match.go:41-50 | the scan for the closing bracket stops at the first bracket that can close the class, or at the end |
| `Glob.TranslateNext` | internal/expression/match.go:31-66 | one turn emits the text of the next token and moves past exactly that token |
| `Glob.TranslateCharClass` | internal/expression/match.go:82-103 | negation and the escaping of backslashes and of a leading caret or bracket |
| `Glob.ClassEndFirst` | internal/expression/match.go:41-50 | a closed class is never empty, and past its first member it holds no closing bracket |
| `Glob.TokensMeanFnmatch` | internal/expression/match.go:24-69 | the tokens of a pattern match exactly the texts that the reference meaning `Fnmatch` accepts directly on the pattern text: star, question mark, classes with negation, ranges and a literal first bracket, an unclosed bracket as itself |
| `GoRegex.ReadRangesOfEscaped` | internal/expression/match.go:82-103 | reading an escaped class in which no class name starts gives the ranges of the glob class, or the same error |
| `GoRegex.ReadRangesNamed` | internal/expression/match.go:82-103 | a class in which a class name starts is never read as the ranges of the glob class |
| `GoRegex.TranslationFaithful` | internal/expression/match.go:26-103 | compiling the emitted expression yields the tokens of the pattern, or the same error, if no class name is in it; for patterns that have tokens, if and only if |
| `GoRegex.CompiledGlobMeansFnmatch` | internal/expression/match.go:26-103 | if no class name is in it, an emitted expression that compiles accepts a text if and only if the glob pattern matches it directly |
| `GoRegex.NameMisread` | internal/expression/match.go:82-103 | a pattern with a class name that compiles and matches a text the glob pattern does not match |
| `GoRegex.ExclusionNameBroken` | internal/expression/match.go:82-103 | an exclusion alone that holds a class name does not compile |
| `GoRegex.ClosedNoName` | internal/expression/match.go:26-103 | a pattern whose classes are closed and hold no `[:` has no class name in it |
| `Glob.MatchesConcat` | internal/expression/match.go:26-69 | a concatenation of token lists matches exactly the texts that split into two matched parts |
| `Glob.TokensOfConcat` | internal/expression/match.go:26-69 | a pattern whose classes are closed compiles independently of what follows it |
| `Glob.PlainMatchesItself` | internal/expression/match.go:61-65 | a pattern without metacharacters matches itself and nothing else |
| `RangeRegex.GetUpperRange` | internal/expression/range2re.go:24-35 | for ints of either sign, the digit loop computes on the array the number with trailing zeros and the next digit raised to nine, saturated to the range of int |
| `RangeRegex.GetLowerRange` | internal/expression/range2re.go:39-50 | the digit loop computes, on the array, the number with trailing nines and the next digit lowered to zero |
| `RangeRegex.UpperDigitsValue` | internal/expression/range2re.go:24-35 | overwriting digits is the arithmetic step, which never goes below the start |
| `RangeRegex.LowerDigitsValue` | internal/expression/range2re.go:39-50 | overwriting digits is the arithmetic step, even where it leaves leading zeros |
| `RangeRegex.SplitRangeLeft` | internal/expression/range2re.go:53-61 | where all upper bounds are ints, the loop, on wrapping ints, terminates and yields the left split |
| `RangeRegex.SplitRangeRight` | internal/expression/range2re.go:64-76 | the loop and the in-place reversal yield the right split in ascending order |
| `RangeRegex.LeftParts` | internal/expression/range2re.go:53-61 | every left piece is a largest range; all but the last lie end to end from begin, and the last, which starts just above them, reaches at least end - 1 |
| `RangeRegex.RightParts` | internal/expression/range2re.go:64-76 | all right pieces but the first lie end to end up to end, and stay above begin; the first, which ends just below them, reaches down to begin + 1 or lower |
| `RangeRegex.RegularMiddle` | internal/expression/range2re.go:93-103 | the merge of overlapping middle pieces is again expressible digit by digit |
| `RangeRegex.MiddleRegularChain` | internal/expression/range2re.go:93-103 | the middle pieces either merge into one regular piece or are exactly adjacent |
| `RangeRegex.SplitRanges` | internal/expression/range2re.go:80-103 | the joined splits are the pieces of the specification |
| `RangeRegex.PiecesRegularChain` | internal/expression/range2re.go:79-109 | the final pieces are regular, ascending and disjoint, and lie end to end from begin to end |
| `RangeRegex.ChainCovers` | internal/expression/range2re.go:79-109 | a number is in the interval if and only if it is in some piece |
| `RangeRegex.RangePartToRe` | internal/expression/range2re.go:112-128 | the loop over digit positions yields one literal or class for each position |
| `RangeRegex.FragmentExact` | internal/expression/range2re.go:112-128 | a regular fragment matches exactly the decimal texts of the numbers of its piece |
| `RangeRegex.Range2Re` | internal/expression/range2re.go:79-109 | where the left split ends, the fragments of the interval, in order |
| `RangeRegex.RangeExact` | internal/expression/range2re.go:79-128 | where the left split ends, some fragment matches a text if and only if it is the canonical decimal text of a number in begin..end |
| `RangeRegex.RangeCompiles` | internal/expression/range2re.go:79-128 | every fragment compiles and closes the classes it opens |
| `RangeRegex.LeftCursorZeros` | internal/expression/range2re.go:53-61 | the left cursor gains at least one trailing zero each turn |
| `RangeRegex.CursorsAreRoundings` | internal/expression/range2re.go:53-61 | the cursors after begin are exactly the multiples of powers of ten that begin rounds up to |
| `RangeRegex.LastUpperShort` | internal/expression/range2re.go:52-61 | the last upper bound falls short of end if and only if begin rounds to end |
| `RangeRegex.NineTenShort` | internal/expression/range2re.go:52-61 | one such input |
| `RangeRegex.CursorStuck` | internal/expression/range2re.go:33-59 | from the least int the cursor stays negative for ever |
| `RangeRegex.SplitEndsExactly` | internal/expression/range2re.go:24-61 | the loop comes to an end if and only if all its upper bounds are ints |
| `RangeRegex.SplitFitsExactly` | internal/expression/range2re.go:24-61 | and that if and only if some rounding of begin lies between end and the largest int |
| `RangeRegex.SmallRangeFits` | internal/expression/range2re.go:24-61 | which every range up to 10^18 satisfies |
| `RangeRegex.EndlessSplit` | internal/expression/range2re.go:24-61 | on 1..10^18+1 the loop never ends |
| `RangeRegex.RightCursorNines` | internal/expression/range2re.go:64-76 | the right cursor gains at least one trailing nine each turn |
| `RangeRegex.FragmentCount` | internal/expression/range2re.go:79-109 | at most two fragments for each digit of end |
| `Decimal.AtoiOfItoa` | internal/expression/range2re.go:24-35 | decimal printing and parsing round-trip below 2^63 |
| `Parse.ParseEnum` | internal/expression/parse.go:135-168 | block values, by classification; the recursion is well founded and never takes the error branch, so the only failure is a range whose splitting does not return |
| `Parse.FragmentsRankZero` | internal/expression/parse.go:41-57 | no fragment of a range is ever classified as a range or list again, which is why the recursion ends |
| `Parse.ParseEnumOfRange` | internal/expression/parse.go:119-168 | a range block expands to exactly the texts of its range expression, since those are fixed points; it does not return exactly if that does not |
| `Parse.ParseEachMember` | internal/expression/parse.go:144-163 | a list is expanded if all its members are, and then to a text exactly when one of them is |
| `Parse.PrefixEach` | internal/expression/parse.go:189-193 | the block's values with the text before the block |
| `Parse.CrossProduct` | internal/expression/parse.go:195-201 | the nested loops compute the ordered Cartesian product |
| `Parse.ParseExp2UnixShellStyleMain` | internal/expression/parse.go:171-216 | unless a range in it is endless, the scanner terminates, and its candidates are the product over all blocks in order, with the tail appended, or the error of the first unclosed bracket |
| `Parse.ProductMember` | internal/expression/parse.go:195-201 | a text is in the product exactly when it is a choice from the left followed by one from the right |
| `Parse.ProductAt` | internal/expression/parse.go:195-201 | candidate order is lexicographic in the choices |
| `Parse.ProductAssociative` | internal/expression/parse.go:171-216 | multiplying out from the left or from the right gives the same list |
| `Parse.ExpandConcat` | internal/expression/parse.go:171-216 | an expression whose blocks are closed expands independently of what follows |
| `Parse.ParseExp2UnixShellStyle` | internal/expression/parse.go:219-234 | the candidates without later duplicates, in order of first occurrence |
| `Parse.Dedupe` | internal/expression/list2expr.go:63-74 | the distinct elements in order of first occurrence |
| `Parse.WellFormedCompiles` | internal/expression/parse.go:135-216 | an expression with closed, un-nested, non-degenerate blocks whose ranges are split is expanded, and every candidate compiles and closes its classes |
| `Text.TrimPadded` | internal/expression/parse.go:110-117 | trimming takes white space off both sides of a trimmed text and nothing else |
| `Text.TrimAscii` | internal/expression/parse.go:110-117 | in particular blanks, tabs and line ends |
| `Text.TrimmedParts` | internal/expression/parse.go:110-117 | every text is what trimming leaves of it between two stretches of white space |
| `Blocks.LetterPairMatches` | internal/expression/parse.go:71-84 | for two letters around a hyphen Match answers yes for the letters between them if both have one case and ascend, and otherwise for that very text alone |
| `Blocks.NumberPairMatches` | internal/expression/parse.go:89-104 | for two numbers around a hyphen, signs and leading zeros allowed, Match answers yes for the canonical texts of the numbers between them if they ascend, and otherwise for that very text alone; a range must be one that is split |
| `Blocks.WordMatches` | internal/expression/parse.go:41-57 | for a plain word without special characters Match answers yes for the word alone |
| `Blocks.ExclusionMatches` | internal/expression/parse.go:139-140 | for a block that starts with `!` Match answers yes for the single characters it does not list, commas and space included |
| `Blocks.RangeExclusionMatches` | internal/expression/parse.go:139-140 | and for an excluded range of characters, for the single characters outside it |
| `Blocks.PaddingIgnored` | internal/expression/parse.go:110-117 | white space around the words of a list changes neither candidates nor answers, errors included, whatever the words |
| `Blocks.ListIsUnion` | internal/expression/parse.go:141-150 | a list of padded words selects exactly what its words select as blocks of their own |
| `Blocks.ListMatchIsUnion` | internal/expression/parse.go:141-150 | if the words are well formed, Match answers yes exactly if it does for one of them |
| `Blocks.PaddingInExclusion` | internal/expression/parse.go:45-48 | in a block that starts with `!` a space is excluded like any other character |
| `Blocks.SelectsConcat` | internal/expression/parse.go:171-216 | two well-formed expressions in a row select exactly the names that split into a name of each |
| `Blocks.MatchConcat` | internal/expression/match.go:106-121 | and Match answers so |
| `Blocks.ShapeMatches` | internal/expression/match_test.go:42-46 | for text, a letter range, text, an exclusion, text, and a list of two number ranges with a space, Match answers yes for a name of these parts exactly if each part fits |
| `Blocks.UnclosedExactly` | internal/expression/parse.go:176-180 | if the call returns, it refuses an expression if and only if an opening bracket in it has no closing bracket after it |
| `Matching.Match` | internal/expression/match.go:106-121 | the first candidate that fails to compile or matches decides |
| `Matching.MatchDecidesSelects` | internal/expression/match.go:106-121 | when all candidates compile to their tokens, Match is true exactly when some candidate of the full expansion matches: dropping duplicates changes nothing |
| `Matching.MatchMeansSelects` | internal/expression/match.go:106-121 | whenever Match gives an answer for an expression without class names, it is that meaning |
| `Matching.CompileCandidates` | internal/expression/match.go:129-137 | all compiled candidates, or the first compile error |
| `Matching.PickMatching` | internal/expression/match.go:139-155 | the matched names in list order, through the map |
| `Matching.ListMatch` | internal/expression/match.go:124-156 | errors and result of the filter |
| `Matching.ListMatchIsSelected` | internal/expression/match.go:124-156 | when all candidates compile to their tokens, the result is the order-preserving sublist of names the expression selects |
| `Compression.RunEnd` | internal/expression/list2expr.go:95-98 | the inner loop finds the end of the run at a position |
| `Compression.CompressRanges` | internal/expression/list2expr.go:92-107 | the texts of the runs, in order |
| `Compression.RunsConserve` | internal/expression/list2expr.go:92-107 | writing the runs out again gives the list back |
| `Compression.RunsCover` | internal/expression/list2expr.go:92-107 | a number is in the list if and only if some run covers it |
| `Compression.RunsApart` | internal/expression/list2expr.go:92-107 | no two neighbouring runs can be merged |
| `Compression.RunsMinimal` | internal/expression/list2expr.go:92-107 | no cover of the set by intervals inside it has fewer intervals |
| `List2Expr.IDsToExpr` | internal/expression/list2expr.go:49-60 | the printed expression, through the deduplicating and the compressing loop |
| `List2Expr.IdsRoundTrip` | internal/expression/list2expr.go:43-60 | for a non-empty ID list, Match on the expression answers without error, and yes exactly for the decimal texts of its members |
| `List2Expr.IdMatches` | internal/expression/list2expr.go:43-60 | Match answers for the text of an ID whether the ID is in the list |
| `List2Expr.IdsWellFormed` | internal/expression/list2expr.go:49-60 | printed ID expressions always compile and are never taken for slices |
| `List2Expr.RunSelects` | internal/expression/list2expr.go:99-103 | a printed run of ints is parsed back to exactly the numbers of the run, where the range is split |
| `List2Expr.ListToExpr` | internal/expression/list2expr.go:29-41 | the printed expression of a name list |
| `Text.TextLeMeans` | internal/expression/list2expr.go:38 | the sorting order: a prefix comes first, otherwise the smaller first difference |
| `List2Expr.NamesPrintedAscending` | internal/expression/list2expr.go:29-41 | a list of several names is printed as the block of its distinct names in that order, strictly ascending, however the list was given |
| `SingleName.UnitsBound` | internal/expression/match.go:26-69 | a pattern without wildcards matches no text longer than its number of units, a unit being a character or a range class |
| `SingleName.CandidateUnits` | internal/expression/parse.go:171-216 | a candidate has fewer units than its expression has characters, unless all blocks are exclusions and the expression is its own candidate |
| `SingleName.SingleNameExactly` | internal/expression/list2expr.go:34-35 | a name printed alone selects exactly itself if and only if it has no `*` or `?` and its only `[`, if any, begins a `[!]` with no bracket after it |
| `SingleName.StandAloneMatches` | internal/expression/list2expr.go:34-35 | for all names of that form, Match answers yes exactly for the name |
| `SingleMatch.AtomsRead` | internal/expression/match.go:26-103 | reading emitted text yields at most one token for each of its atoms, and fewer if one of them opens a class |
| `SingleMatch.AtomsOf` | internal/expression/match.go:26-103 | a translated pattern has no more atoms than units; with as many and no class, it holds no class name |
| `SingleMatch.SingleNameMatches` | internal/expression/list2expr.go:34-35 | for every single name, class names included, Match on it answers yes exactly for the name if and only if the name has that form |
| `NameLists.PiecesOfJoin` | internal/expression/list2expr.go:36-40 | the pieces a printed list is parsed into are those of its names |
| `NameLists.ListedSelect` | internal/expression/list2expr.go:29-41 | a list of plain words, in which even `[` is allowed, selects exactly those words |
| `NameLists.LosslessListed` | internal/expression/list2expr.go:22-41 | if a list of several names without `]` is matched without loss, every name is a trimmed plain word without wildcards |
| `NameLists.WholeExclusionLoses` | internal/expression/list2expr.go:22-41 | a list whose first name starts with `!` loses its last name |
| `NameLists.ClosingBracketLost` | internal/expression/list2expr.go:22-41 | a list of several names without `*`, `?`, `[` and `!`, some of which hold `]`, loses a name |
| `NameLists.NamesRoundTripExactly` | internal/expression/list2expr.go:22-41 | the condition for matching without loss, exact for one distinct name, for names without `]`, and for names without `*`, `?`, `[` and `!` |
| `NameLists.NamesMatchExactly` | internal/expression/list2expr.go:22-41 | Match on the printed expression answers without error, and yes exactly for the names of the list, if and only if the list meets that condition |
| `NameLists.NamesMatch` | internal/expression/list2expr.go:22-41 | under that condition, for every list, Match answers whether a name is in the list |
| `NameLists.NamesSelect` | internal/expression/list2expr.go:22-41 | under that condition a name is selected if and only if it is in the list |
| `NameLists.RangeNameLost` | internal/expression/list2expr.go:22-41 | a name that reads as a range is not selected by a list of several names without wildcards and `]` |
| `NameLists.LetterRangeLost` | internal/expression/list2expr.go:22-41 | concrete failing inputs: a letter range beside another name |
| `Slice.PythonSliceIsSlicing` | internal/expression/slice.go:55-86 | the result holds exactly the items whose positions lie between the signed or absent bounds, in order |
| `Slice.SliceHalves` | internal/expression/slice.go:55-86 | for every integer k the slices up to k and from k concatenate to the list |
| `Slice.NoColonNoSlice` | internal/expression/slice.go:21-28 | a text without a colon is not a slice expression |
| `Slice.SliceExactly` | internal/expression/slice.go:20-28 | a segment is taken for a slice, with these bounds and this rest, if and only if it starts with two optional signed numbers in brackets around a colon that has at most one white-space character on either side |
| `Slice.SliceTextSlices` | internal/expression/slice.go:31-53 | two shown bounds in brackets select the items at the positions between them, a bound that is no int counting as absent; what follows is ignored unless it holds a slice text |
| `Slice.TwoSlicesKeepAll` | internal/expression/slice.go:32-35 | a segment with another slice text after the first leaves the list whole |
| `Slice.FittingExactly` | internal/expression/slice.go:43-53 | treating a bound that is no int as absent gives Python's slice if and only if it is a small begin or a large end, or nothing is left anyway |
| `Segments.JoinDetermines` | internal/expression/scope.go:73-75 | fields without the splitter are recovered from the joined text, and no other split has as many parts |
| `Segments.ExpandJoin` | internal/expression/scope.go:47-55 | every candidate of a joined expression is a join of one candidate per segment |
| `Segments.JoinMatchSplits` | internal/expression/match.go:26-69 | a joined pattern matches only texts that split into parts its members match |
| `Segments.JoinCompiles` | internal/expression/scope.go:47-55 | every candidate of joined well-formed segments compiles |
| `Segments.SegmentLocality` | internal/expression/scope.go:47-75 | joined segments select joined fields if and only if each segment selects its own field, stars included |
| `Segments.LocalityExactly` | internal/expression/scope.go:47-75 | for two or more fields, all well-formed segments are matched field by field if and only if no field holds the splitter |
| `Segments.SplitterInFieldMisreads` | internal/expression/scope.go:73-75 | the condition on fields is needed: a concrete misread |
| `Segments.StarSelects` | internal/expression/scope.go:34-42 | the default segment selects every field |
| `Scope.IndexCandidates` | internal/expression/scope.go:80-88 | distinct expressions in first-seen order, and a map to the ID of the last occurrence |
| `Scope.LookUpIds` | internal/expression/scope.go:102-105 | the IDs of the matched expressions |
| `Scope.ScopeToCcIDs` | internal/expression/scope.go:79-109 | the whole pipeline refines match, map, slice, with its errors |
| `Scope.SliceLaw` | internal/expression/scope.go:90-109 | with a slice in the ID segment, the result is that slice of the result with a star there |
| `Scope.ScopePicks` | internal/expression/scope.go:79-109 | a well-formed scope over a process list yields, in list order, the IDs of the distinct processes whose five fields all fit, sliced if the ID segment holds a slice |
| `Scope.ScopeSlices` | internal/expression/scope.go:90-109 | with two shown bounds in the ID segment, the scope picks of the fitting processes those at the positions between the bounds; all of them if another slice text follows |
| `Scope.PrintedScopePicksWanted` | cmd/data-service/db-migration/migrations/20260722120000_migrate_task_batch_operate_range_to_expression.go:83-88 | the scope printed from five lists picks exactly the distinct processes whose names and IDs are in the lists |
| `Scope.SegmentRoundTripExactly` | internal/expression/scope.go:37-55 | as a segment of a scope a non-empty name list selects exactly its names if and only if it is matched without loss and is not just the empty name |
| `Scope.SegmentMatchExactly` | internal/expression/scope.go:37-55 | the same of the answers of Match on the segment |
| `Scope.EmptyNameSelectsAll` | internal/expression/scope.go:37-42 | a list with only the empty name selects every name |
| `PathTrie.AddChild` | pkg/tools/trie_node.go:36-39 | a missing child is created and the node map stays exact |
| `PathTrie.Walk` | pkg/tools/trie_node.go:31-43 | the loop reports whether a stored path is a prefix, and extends the tree along the new path only |
| `PathTrie.MarkEnd` | pkg/tools/trie_node.go:43-44 | the end flag of the last node is set, and with that the trie holds exactly one path more |
| `PathTrie.ChildrenTell` | pkg/tools/trie_node.go:46-49 | the last node has children if and only if some stored path extends the new one |
| `PathTrie.InsertPath` | pkg/tools/trie_node.go:27-54 | true exactly when some stored path is a prefix of the new one or the reverse; afterwards the trie holds exactly one path more |
| `PathTrie.CheckExistingPathConflict` | pkg/tools/trie_node.go:56-69 | count, on 32 bits, and set of conflicting paths |
| `PathTrie.ConflictSetByPosition` | pkg/tools/trie_node.go:56-69 | the set holds exactly the paths that conflict with an earlier one |
| `PathTrie.ConflictCountByPosition` | pkg/tools/trie_node.go:56-69 | below 2^32 paths the counter is the number of positions that conflict with an earlier one |
| `PathTrie.NoConflictsMeansPrefixFree` | pkg/tools/trie_node.go:56-69 | the count is zero if and only if the list is pairwise prefix-free |
| `PathTrie.CheckPathConflict` | pkg/tools/tools.go:216-237 | true exactly when the pair test holds for some existing path |
| `PathTrie.ScanPairMeans` | pkg/tools/tools.go:216-237 | the text test with slashes is the prefix relation on components without trailing slashes |
| `PathTrie.PairsAgree` | pkg/tools/trie_node.go:27-54 | without trailing slashes the trie's relation and the scan's are the same |
| `PathTrie.PairsDiffer` | pkg/tools/tools.go:216-237 | for all paths, they differ if and only if one is a directory written with its slash and the other a path below it |
| `PathTrie.DirectoryMissed` | pkg/tools/trie_node.go:27-54 | a concrete pair on which they differ |
| `PathTrie.TrieAgreesWithScan` | pkg/tools/trie_node.go:56-69 | at each position of any list, the two verdicts in terms of the earlier paths, and that they are the same if and only if some earlier path's components nest with this one's or no earlier path stands in the directory relation to it |
| `Frames.FrameRoundTrip` | render/renderer.go:283-307 | a written frame is read back exactly, with nothing beyond it consumed, if and only if it is shorter than 2^32 bytes |
| `Frames.HeaderBigEndian` | render/renderer.go:283-286 | the header is the length on 32 bits in base 256, most significant byte first |
| `Frames.TruncatedFrame` | render/renderer.go:296-307 | a cut frame yields no payload |
| `Frames.StreamRoundTrip` | render/python/main.py:304-319 | repeated reading of concatenated frames returns the payload list and consumes every byte |
| `Frames.TruncatedStream` | render/python/main.py:304-312 | a stream cut anywhere yields a prefix of the payload list, unaltered |
| `Frames.Pipe.Write` | render/renderer.go:283-293 | a write is complete, or fails after a part |
| `Frames.WriteFrame` | render/renderer.go:283-293 | on success the frame is appended; on failure a proper prefix of it |
| `Frames.Stream.Read` | render/python/main.py:304-312 | some bytes, at most as many as asked for, in any chunking |
| `Frames.ReadExact` | render/python/main.py:304-312 | exactly n bytes however they are chunked, or nothing if the stream ends first |
| `Frames.ReadFrame` | render/renderer.go:296-307 | the first frame of the content, whatever the chunking, or an error when there is none |
| `Frames.Serve` | render/python/main.py:322-345 | the worker writes the framed response to each whole request, in order; if the output pipe breaks, exactly as much of that as the pipe took |
| `Frames.ServeRoundTrip` | render/python/main.py:322-345 | framed requests in, exactly their framed responses out, in order |
| `RenderPool.InitInv` | render/renderer.go:199-210 | a fresh pool satisfies the invariant |
| `RenderPool.ExchangingStays` | render/python/main.py:322-345 | every worker step keeps one exchange's bytes in order across pipes and buffers |
| `RenderPool.StepInv` | render/renderer.go:264-411 | every step of every caller, watchdog and worker keeps the pool invariant |
| `RenderPool.RunInv` | render/renderer.go:340-411 | the invariant holds in every reachable state |
| `RenderPool.OwnAnswer` | render/renderer.go:264-280 | in every interleaving a returned text or rendering error is the worker's answer to the caller's own request |
| `RenderPool.SlotsConserved` | render/renderer.go:371-374 | each slot is idle or held by one caller, and idle plus held is the pool size |
| `RenderPool.IdleWorkersQuiet` | render/renderer.go:371-411 | an idle worker that would be reused has nothing under way in its pipes |
| `RenderAnswers.OutcomeExactly` | render/renderer.go:264-411 | in every interleaving a returned call says that the start failed if it did, else that time ran out if it was killed, else that IO failed if a read or write did, else exactly what the worker's answer to its request says; an answer that cannot be decoded counts as an IO failure |
| `RenderAnswers.WorkerKeptExactly` | render/renderer.go:398-410 | when the slot is given back its worker is marked dead if and only if the outcome is an IO failure or a kill, a failed start apart |
| `RenderAnswers.IoFaultMeansDead` | render/renderer.go:264-280 | a read or write of a call fails only when the process it uses had ended |
| `RenderAnswers.AnswerReachable` | render/renderer.go:340-411 | on a free slot with a live or unstarted worker there is a run in which the call returns what the decodable answer to its fitting request says, with the worker kept and usable and the slot back at the end of the queue |
| `RenderAnswers.UndecodedWaits` | render/renderer.go:272-280 | if the answer cannot be decoded there is a run to a state in which the call waits for its worker, which is well and expects a request |
| `RenderAnswers.FatalWaits` | render/renderer.go:405-409 | in every run after which that process is still alive, the waiting call is where it was, with its slot |
| `RenderAnswers.KilledReturns` | render/renderer.go:383-402 | in every state of the invariant a call in its exchange can be killed and then returns that time ran out, with the worker marked dead and the slot given back |
| `RenderAnswers.WorkersTakeTurns` | render/renderer.go:371-374 | over every run, the slots idle at first and those given back are, in order, those taken and those idle at the end |
| `RenderAnswers.OversizedMisanswered` | render/renderer.go:283-293 | for every request of 2^32 bytes or more there are a worker and a run that end in a wrong answer |
| `Ginclude.ExpandGincludeAt` | render/ginclude.go:38-87 | the loop refines the functional expansion, and on success the visited map is what it was on entry |
| `Ginclude.ExpandGinclude` | render/ginclude.go:33-36 | expansion from depth zero with nothing visited |
| `Ginclude.DerivationUnique` | render/ginclude.go:38-87 | a content has at most one full inlining |
| `Ginclude.ExpansionIsInlining` | render/ginclude.go:38-87 | expansion gives a text if and only if the content has a full inlining to that text within the depth bound |
| `Ginclude.SucceedsIffChainsOk` | render/ginclude.go:33-87 | success if and only if every include chain has at most maxDepth names and all resolve |
| `Ginclude.VisitedNeverRejects` | render/ginclude.go:57-60 | expansion without the visited check accepts the same contents with the same texts |
| `Ginclude.ErrorsAreRight` | render/ginclude.go:39-73 | a circular reference is reported only for a name that includes itself along some chain, an unresolved name only if a chain leads to it, the depth only for a chain of more than maxDepth different names |
| `Ginclude.LargerDepthSame` | render/ginclude.go:28-36 | any larger bound gives the same result |
| `Etcd.PutValid` | internal/serviced/serviced.go:195-204 | a put under a live lease keeps the history lawful and rewrites nothing |
| `Etcd.ExpireValid` | internal/serviced/serviced.go:195-204 | so does the end of a lease |
| `Etcd.ExpiryTakesItsKeys` | internal/serviced/serviced.go:195-204 | a lease that ends removes exactly the keys bound to it then |
| `Etcd.BornAt` | internal/serviced/serviced.go:416-428 | an entry has been there since its create revision and not just before |
| `Etcd.CreationIdentifies` | internal/serviced/serviced.go:416-431 | over the whole history one create revision names one incarnation of one key, so comparing revisions compares entries |
| `Etcd.LostKeyStaysYounger` | internal/serviced/serviced.go:249-252 | a key that was missing and returns is younger than all entries that were there meanwhile and still are |
| `Etcd.PutKeepsAges` | internal/serviced/serviced.go:233-242 | re-registering a key that is still there changes nobody's age and frees it from its old lease |
| `Etcd.OwnKeyFirst` | internal/serviced/serviced.go:409-416 | a prefix read of one's own key finds that key first, if it is there |
| `Etcd.FirstCreatedIs` | internal/serviced/serviced.go:418-428 | the first created key under a path is unique |
| `Registry.StepInv` | internal/serviced/serviced.go:176-286 | every step of every goroutine, call and lease keeps the invariant |
| `Registry.RunInv` | internal/serviced/serviced.go:176-432 | the invariant holds in every reachable state; history and names are kept |
| `Registry.CheckIsIsMaster` | internal/serviced/serviced.go:407-432 | the two reads of a check compute isMaster on the snapshots they happen to see |
| `Registry.IsMasterFails` | internal/serviced/serviced.go:414-427 | isMaster fails exactly if one of its reads finds nothing |
| `Registry.IsMasterExactly` | internal/serviced/serviced.go:407-432 | for a registered instance: yes if and only if its own entry is the first created one in the second snapshot |
| `Registry.AnswersNoExactly` | internal/serviced/serviced.go:407-432 | no if and only if both reads find something, but not one and the same entry |
| `Registry.MasterWasOldest` | internal/serviced/serviced.go:407-439 | in every reachable state a set flag rests on a key that was the oldest of the service in the second snapshot; it is the key of an instance whose key extends the holder's, and the holder's own unless another instance's key properly extends it |
| `Registry.RunNamed` | internal/serviced/serviced.go:176-286 | in every run all keys ever stored are keys of instances |
| `Registry.OneMasterPerSnapshot` | internal/serviced/serviced.go:407-439 | two masters of a service by one snapshot rest on one entry, and one's key is a prefix of the other's |
| `Registry.SharedSnapshotExactly` | internal/serviced/serviced.go:407-439 | two instances of a service can hold the flag by one snapshot if and only if one's key is a prefix of the other's |
| `Registry.NestedShare` | internal/serviced/serviced.go:409-416 | in that case the instance with the shorter key becomes master by the other's key without ever registering |
| `Registry.MastershipMovesAfterLoss` | internal/serviced/serviced.go:407-432 | by the later of two yes-answers of a service that rest on different entries, the earlier one's entry was gone |
| `Registry.TwoMastersMeansLoss` | internal/serviced/serviced.go:407-439 | in every reachable state, two masters of a service rest on one entry and their keys nest, or the one that judged earlier had lost its entry by the snapshot of the other |
| `Registry.ReRegistrationDisplacesNobody` | internal/serviced/serviced.go:214-273 | in every reachable state, an instance whose key was missing once, and whose key no other instance's extends, is not master by a snapshot in which an entry from that time still lives |
| `Registry.OldestBecomesMaster` | internal/serviced/serviced.go:387-432 | an undisturbed check sets the flag of the owner of the oldest key |
| `Registry.OnlyAnswerClears` | internal/serviced/serviced.go:366-405 | a step clears a set flag only by completing a check of that instance whose reads both found something and to which isMaster answers no |
| `Registry.StaleFlagStays` | internal/serviced/serviced.go:366-405 | while nothing lies under its key, a flag survives every check whose reads do not go back to earlier snapshots |
| `Registry.DeregisteredStaysMaster` | internal/serviced/serviced.go:276-288 | a deregistered master stays master for ever, as far as its checks read no snapshots from before |
| `Registry.SecondMasterReachable` | internal/serviced/serviced.go:387-439 | from every reachable state with a master, any other instance that may register can become a second master beside it |
| `Registry.TwoMastersReachable` | internal/serviced/serviced.go:387-439 | so two masters at once are reachable from the start |
| `Registry.DeregisteredStaysGone` | internal/serviced/serviced.go:276-288 | once a cancelled instance has lost its key and no put of it is under way with a live lease, waited for or not, the key is in no later snapshot, even if Register is called again |
| `Registry.DeregisteredReturnsExactly` | internal/serviced/serviced.go:276-288 | in every reachable state, the lost key of a cancelled instance can come back if and only if a put of it is under way whose lease is live |
| `Registry.LatePutSurvives` | internal/serviced/serviced.go:195-204 | such a run: a put that Register gave up on takes effect after Deregister has deleted the key and all goroutines have ended |
| `Registry.PathsMix` | internal/serviced/types.go:76-84 | a service's prefix reads see another service's keys exactly when that one's name begins with its own |
| `Registry.SameLengthApart` | internal/serviced/types.go:82-84 | distinct identifiers of one length never give keys of which one extends the other |
| `KeepAlive.KeepAliveRestores` | internal/serviced/serviced.go:214-273 | in every reachable state, one round of the loop alone with working requests, in a stated number of steps, leaves the key there under a live lease and the instance with a live lease; nothing changes if both were in place, otherwise the instance is registered and holds the key by its own lease; a key still there keeps its age, and nothing else changes |
| `KeepAlive.HoldsOwnExactly` | internal/serviced/serviced.go:214-273 | after the round the key hangs on the instance's own lease if and only if it did so, or key or lease was lost, before; and likewise for the flag |
| `KeepAlive.FailedLoopForgets` | internal/serviced/serviced.go:240-273 | a look-up or renewal that does not succeed clears flag and lease and leaves etcd alone |
| `KeepAlive.OutageThenRestored` | internal/serviced/serviced.go:240-273 | after such a failure, even of a healthy instance, the loop brings the key back under a new lease |
| `KeepAlive.LoopsGoOn` | internal/serviced/serviced.go:215-266 | over every run the keep-alive loop of an instance that is not cancelled and the loops of checks do not end |
| `KeepAlive.KeepAliveRecovers` | internal/serviced/serviced.go:214-273 | in every reachable state, wherever a goroutine stands in the loop of a live instance, sixteen steps of its own can bring the key and a live lease back |
| `KeepAlive.RegisterHolds` | internal/serviced/serviced.go:176-212 | with working requests Register leaves the key under a new live lease, which the instance knows, the flag set, and a keep-alive loop |
| `KeepAlive.RegisterFails` | internal/serviced/serviced.go:193-204 | a Register whose request fails or loses its reply ends and changes no flag and no key |
| `KeepAlive.DeregisterRemoves` | internal/serviced/serviced.go:276-286 | with a working request Deregister cancels the context, removes the key and clears the flag, and changes no other key |
| `KeepAlive.LateDeletionRemoves` | internal/serviced/serviced.go:279-282 | a deletion left behind still removes the key when it takes effect |
| `KeepAlive.CancelledLoopEnds` | internal/serviced/serviced.go:216-219 | once cancelled, a goroutine of Register or of the keep-alive loop takes at most five more steps, in every run |
| `KeepAlive.StrayLeaseReachable` | internal/serviced/serviced.go:193-206 | from every state in which an instance may register, a state is reachable in which its loop renews a lease that its key does not hang on |
| `KeepAlive.StrayLeaseEnds` | internal/serviced/serviced.go:240-262 | there a round changes nothing, and the key is lost when the other lease ends |
| `KeepAlive.MasterStateFollows` | internal/serviced/serviced.go:290-310 | over every run the state callers see is the flag, unless the last call of DisableMasterSlave has switched it off |

## Left out

- The Go regular expression engine beyond the constructs the translator emits. Behind a misread class name, the rest of a
  later class can be left outside all classes, with operators in it; the model reports `Unread` there, although Go may
  compile the expression. Reversed ranges are Go's compile error; expressions holding them are outside `WellFormed`.
- NameLists.NamesRoundTripExactly: does not decide lists of several names in which `]` occurs together with `*`, `?`, `[`
  or `!`; there a block ends inside a name, and what is left of the list is itself an expression.
- NameLists.NamesMatchExactly: leaves the same lists undecided.
- Scope.SegmentRoundTripExactly: leaves the same lists undecided.
- Scope.SegmentMatchExactly: leaves the same lists undecided.
- UTF-8: patterns and names are sequences of characters; the translation's byte loop is not distinguished from a
  character loop.
- A call of `Range2Re` with begin above end, on which the source indexes an empty list, is excluded; its only caller
  never makes it.
- The memory that `splitRangeLeft` takes up while it does not return.
- `sort.Ints` and `sort.Strings` are functions with the sorted permutation as result, not the library's algorithm.
- `GenDisplayExpression`, which only joins with another separator.
- The scan for include directives: contents are lists of literals and includes. The regular expression that finds the
  directives, where white space may cross lines, is not modelled.
- Template rendering, JSON, sandboxing, the processes and pipes of the operating system: a worker is a function from
  request bytes to response bytes plus failures at any point; `isLiteralTemplate` and encoding errors come before the
  pool is involved.
- RenderPool: does not model `Close` racing with renders.
- The classes of the render pool and of service registration are values in a state machine, so that the steps of all
  goroutines interleave; in-place update appears there as replacement of one component of the state.
- etcd itself beyond keys, leases, revisions and reads of snapshots: networking, watch streams, time to live, TLS,
  health checks. A watch event only starts a check that may start at any time anyway.
- Configuration, validators, HTTP and gRPC handlers, audit, metrics, logging, crypto and the user interface.
