# argonaut binder core in Dafny

This project models the core of `internal/bind` in the argonaut command-line
binder, and proves properties of that model. The core has five parts:

- **The integer-range algebra.** `IntRange` is an interval whose two ends can
  each be bounded or unbounded, inclusive or exclusive. The model covers its
  named constructors, validity, membership, intersection, subtraction, the
  comparisons, the shape queries, the parser of the range syntax and the two
  printers.
- **The natural-number filter.** `NaturalRangeFilter` is a union of ranges,
  written as `_`-separated tokens. The model covers its parser, the
  membership and emptiness tests, the "accepts every natural number" test,
  normalisation, and the printer.
- **The multi-value codec.** A multi-valued flag is read from raw texts and
  written back. It is split at commas, line breaks or spaces, or read as
  JSON. The model also covers the scan for unknown flags, and these helpers
  of the command runner: list membership, format validation, repeated names
  and the split at `--`.
- **The environment-variable exporter.** It computes a variable name for
  each flag. It builds the literal for a POSIX shell, PowerShell or cmd.exe.
  It writes one line per flag in sorted key order. It chooses the dialect
  from the command's shell type or from the detected user shell.
- **The records** that describe a flag and a command.

Functions and lemmas model the loop-free code. The code that loops or
appends is modelled by methods, each proved equal to a specification
function. The lemmas then state what the source promises about those
functions:

- round trips through the parsers and printers;
- exact membership;
- error cases;
- ordering;
- readers of the three shells' quoting rules, which read each generated
  literal back to the value.

Where the source is wrong (see Findings), the operations follow the code as
written. A corrected definition is kept beside each, with its properties
proved, and the README rows about it say so.

Module layout:

| file | module | Go source |
|---|---|---|
| `wrappers.dfy` | `Wrappers` | Go's `(value, error)` returns, as `Option` and `Result` |
| `text.dfy` | `Text` | the `strings`/`strconv` functions the core calls |
| `types.dfy` | `Types` | `type.go` |
| `intrange.dfy` | `IntRanges` | `intrange.go`, the algebra |
| `intrange_syntax.dfy` | `IntRangeSyntax` | `intrange.go`: `NewIntRange`, `format`, `String`, `ToParseableString` |
| `naturalrangefilter.dfy` | `NaturalRangeFilters` | `naturalrangefilter.go`, except `Normalize` and `String` |
| `filternormalize.dfy` | `FilterNormalization` | `naturalrangefilter.go`: `Normalize` and `String` |
| `run.dfy` | `RunHelpers` | the helpers of `run.go` |
| `utils.dfy` | `Utils` | `utils.go` |
| `newlines.dfy` | `Newlines` | `splitPreserveNewlines` |
| `posix.dfy` | `PosixQuoting` | `buildShellLiteral` and a reader for POSIX quoting |
| `powershell.dfy` | `PowershellQuoting` | `buildPowershellLiteral`, `escapeForPS` and a reader for PowerShell string syntax |
| `cmd.dfy` | `CmdQuoting` | `buildCmdLiteral` and a reader for its escapes |
| `order.dfy` | `StringOrder` | the order `sort.Strings` uses |
| `shell.dfy` | `Shell` | `calcEnvName`, the three exporters and `exportEnvVar` |

## Model

| member | source | states |
|---|---|---|
| IntRanges.NewUnboundedIntRange | internal/bind/intrange.go:198-207 | the range is valid and holds every integer |
| IntRanges.NewSingleValueIntRange | internal/bind/intrange.go:209-218 | n is a member exactly when n is the given value |
| IntRanges.NewGreaterThanIntRange | internal/bind/intrange.go:220-229 | n is a member exactly when n > v |
| IntRanges.NewGreaterOrEqualThanIntRange | internal/bind/intrange.go:231-240 | n is a member exactly when n >= v |
| IntRanges.NewLessThanIntRange | internal/bind/intrange.go:242-251 | n is a member exactly when n < v |
| IntRanges.NewLessOrEqualThanIntRange | internal/bind/intrange.go:253-262 | n is a member exactly when n <= v |
| IntRanges.NewInclusiveIntRange | internal/bind/intrange.go:264-273 | n is a member exactly when lo <= n <= hi |
| IntRanges.NewExclusiveIntRange | internal/bind/intrange.go:275-284 | n is a member exactly when lo < n < hi |
| IntRanges.NewBoundedIntRange | internal/bind/intrange.go:286-295 | membership follows each end's inclusivity flag |
| IntRanges.IsValid | internal/bind/intrange.go:297-328 | valid exactly when no infinite end is inclusive and, with both ends bounded, the least integer the lower end admits is at most the greatest the upper end admits; ValidIffNonEmpty proves this is non-emptiness |
| IntRanges.Contains | internal/bind/intrange.go:330-364 | nothing belongs to an invalid range; otherwise n is a member exactly when it lies between the least integer the lower end admits and the greatest the upper end admits, each end read with its own inclusivity (LowestHighestBounds ties this to Lowest and Highest) |
| IntRanges.ValidIffNonEmpty | internal/bind/intrange.go:296-328 | the field rules of IsValid hold exactly when some integer is in the range |
| IntRanges.Witness | internal/bind/intrange.go:304-328 | a valid range has a member |
| IntRanges.IsNotEmpty | internal/bind/range.go:15 | not empty exactly when some integer is a member |
| IntRanges.Lowest | internal/bind/intrange.go:367-375 | None exactly when the lower end is unbounded; otherwise, for a valid range, the least member |
| IntRanges.Highest | internal/bind/intrange.go:378-386 | None exactly when the upper end is unbounded; otherwise, for a valid range, the greatest member |
| IntRanges.LowestHighestBounds | internal/bind/intrange.go:367-386 | n passes an end exactly when it is on the right side of Lowest or Highest |
| IntRanges.HasIntesect | internal/bind/intrange.go:388-416 | true exactly when some integer lies in both ranges; false when either range is invalid |
| IntRanges.CommonMember | internal/bind/intrange.go:392-416 | the end comparisons the source makes decide whether a common member exists |
| IntRanges.Intersect | internal/bind/intrange.go:418-481 | for valid inputs, every common member is in the result, and the result holds only members of r |
| IntRanges.IntersectMembers | internal/bind/intrange.go:418-481 | the end choices of the source give a range between the intersection and r |
| IntRanges.IntersectExact | internal/bind/intrange.go:418-481 | when equal bounded ends agree on inclusivity, the members are exactly the common members |
| IntRanges.SelfIntersect | internal/bind/intrange.go:392-481 | a range meets itself exactly when it is not empty; self-intersection keeps its members |
| IntRanges.Substract | internal/bind/intrange.go:482-536 | [r] when the ranges do not meet; otherwise at most two valid parts; the parts hold exactly r minus other |
| IntRanges.SubstractMembers | internal/bind/intrange.go:489-536 | the left and right remainders are valid and hold exactly r minus other |
| IntRanges.RestComplete | internal/bind/intrange.go:489-536 | every member of r outside other lies in one of the remainders |
| IntRanges.SubstractSelfEmpty | internal/bind/intrange.go:489-536 | a valid range meets itself and the unbounded range, so subtracting either leaves nothing |
| IntRanges.TryMyBestToClosedInterval | internal/bind/intrange.go:538-556 | same members, same unboundedness, every bounded end inclusive |
| IntRanges.LessThan | internal/bind/intrange.go:558-578 | valid, and every member is below n |
| IntRanges.LessOrEqualThan | internal/bind/intrange.go:580-597 | valid, and every member is at most n |
| IntRanges.GreaterThan | internal/bind/intrange.go:599-620 | valid, and every member is above n |
| IntRanges.GreaterOrEqualThan | internal/bind/intrange.go:622-639 | valid, and every member is at least n |
| IntRanges.IsSingleValue | internal/bind/intrange.go:641-647 | when true, the range is valid and holds Min alone |
| IntRanges.SingleValue | internal/bind/intrange.go:649-658 | Some exactly for a single-value range; then that value is its only member |
| IntRanges.IsLessThan | internal/bind/intrange.go:660-667 | in the shape (-inf, Max) the members are exactly the integers below Max |
| IntRanges.IsLessOrEqualThan | internal/bind/intrange.go:669-675 | in the shape (-inf, Max] the members are exactly the integers up to Max |
| IntRanges.IsGreaterThan | internal/bind/intrange.go:677-684 | in the shape (Min, +inf) the members are exactly the integers above Min |
| IntRanges.IsGreaterOrEqualThan | internal/bind/intrange.go:686-692 | in the shape [Min, +inf) the members are exactly the integers from Min on |
| IntRanges.IsLowerBounded | internal/bind/intrange.go:694-701 | agrees with Lowest; for a valid range, true exactly when some integer bounds the members from below |
| IntRanges.IsUpperBounded | internal/bind/intrange.go:703-709 | agrees with Highest; for a valid range, true exactly when some integer bounds the members from above |
| IntRanges.IsUnbounded | internal/bind/intrange.go:711-717 | neither end exists; a valid such range holds every integer |
| IntRangeSyntax.ParseInt | internal/bind/intrange.go:70-77 | an operand is the Atoi of its trimmed text |
| IntRangeSyntax.NewIntRange | internal/bind/intrange.go:39-196 | the empty text gives the unbounded range or an error, by the flag; every result has open unbounded ends carrying 0 |
| IntRangeSyntax.ParseTrimmed | internal/bind/intrange.go:48-195 | every range it returns is well formed |
| IntRangeSyntax.ParseInterval | internal/bind/intrange.go:126-187 | brackets decide the inclusivity of the bounded ends |
| IntRangeSyntax.BuildInterval | internal/bind/intrange.go:135-186 | an empty side becomes an unbounded end; brackets decide inclusivity |
| IntRangeSyntax.EmptyFlagOnlyForEmpty | internal/bind/intrange.go:41-48 | for a non-empty text the emptyAsUnbounded flag changes nothing |
| IntRangeSyntax.String | internal/bind/intrange.go:728-784 | equals the parseable form unless both ends are unbounded; the infinity sign appears exactly then |
| IntRangeSyntax.ToParseableString | internal/bind/intrange.go:786-789 | never empty; under either flag the parser reads it back as the range with 0 stored on its unbounded sides, for every range whose unbounded ends are open and whose bounded ends are ordered |
| IntRangeSyntax.ParseableRoundTrip | internal/bind/intrange.go:728-779 | format without infinity signs is read back by NewIntRange as the range with 0 on its unbounded sides; a well-formed range comes back unchanged |
| IntRangeSyntax.WellFormedRoundTrip | internal/bind/intrange.go:728-779 | format without infinity signs is read back as the same well-formed range |
| IntRangeSyntax.IntervalRoundTrip | internal/bind/intrange.go:728-779 | interval texts read back as the same range |
| IntRangeSyntax.ParseSingle | internal/bind/intrange.go:79-193 | `N` and `=N` read as the one-value range |
| IntRangeSyntax.ParseOperators | internal/bind/intrange.go:88-123 | `>=N`, `>N`, `<=N`, `<N` read as their half-lines |
| IntRangeSyntax.ParseAcceptsAdjacentOpenInterval | internal/bind/intrange.go:176-186 | `(n,n+1)` is accepted although the range it gives is invalid |
| IntRangeSyntax.ParseRefusesEmptyIntervals | internal/bind/intrange.go:176-185 | for every choice of brackets, equal bounds are refused as empty unless both ends are inclusive, and reversed bounds are refused as min > max |
| IntRangeSyntax.ParseRefusesClosedInfinity | internal/bind/intrange.go:138-165 | a closed bracket on an empty side is refused, on either side |
| NaturalRangeFilters.NewAllNaturalRangeFilter | internal/bind/naturalrangefilter.go:137-143 | accepts exactly the natural numbers |
| NaturalRangeFilters.ParseNaturalNumber | internal/bind/naturalrangefilter.go:145-153 | succeeds exactly when Atoi succeeds with a value >= 0, and returns that value |
| NaturalRangeFilters.ParseNaturalNumberItoa | internal/bind/naturalrangefilter.go:147-153 | reads back the decimal text of every natural number |
| NaturalRangeFilters.ParseToken | internal/bind/naturalrangefilter.go:50-131 | a token that adds a range gives one of the four natural token shapes; its numbers do not decrease and start at or above the last number; its high end becomes the new last number; a token meaning all naturals has several dashes (each shape and each refusal is stated by the rows below) |
| NaturalRangeFilters.ParseFilter | internal/bind/naturalrangefilter.go:35-46 | blank text is the empty filter; `all` is the unbounded range (FilterReading states what every other text gives) |
| NaturalRangeFilters.NewNaturalRangeFilter | internal/bind/naturalrangefilter.go:35-135 | the token loop computes ParseFilter |
| NaturalRangeFilters.ReadTokens | internal/bind/naturalrangefilter.go:48-134 | the loop over the tokens computes ParseTokens |
| NaturalRangeFilters.ParsedRangesOrdered | internal/bind/naturalrangefilter.go:29-32 | a parsed filter other than `all` is made of natural token ranges whose numbers never decrease |
| NaturalRangeFilters.ParseTokensOrdered | internal/bind/naturalrangefilter.go:87-131 | the non-decreasing check holds at every token |
| NaturalRangeFilters.ValueTokenMeans | internal/bind/naturalrangefilter.go:122-131 | the digits N give the single value N and make N the last number; refused as decreasing when N is below the last number |
| NaturalRangeFilters.IntervalTokenMeans | internal/bind/naturalrangefilter.go:78-97 | `N-M` gives [N, M] and makes M the last number; refused as min > max when N > M, otherwise as decreasing when N is below the last number |
| NaturalRangeFilters.FromTokenMeans | internal/bind/naturalrangefilter.go:98-107 | `N-` gives the numbers from N on and makes N the last number; refused as decreasing when N is below the last number |
| NaturalRangeFilters.UpToTokenMeans | internal/bind/naturalrangefilter.go:108-117 | `-M` gives the numbers up to M and makes M the last number; refused as decreasing when M is below the last number |
| NaturalRangeFilters.AllNaturalsTokenMeans | internal/bind/naturalrangefilter.go:56-62 | `-N-` means every natural number, whatever the last number |
| NaturalRangeFilters.ManyDashesRefused | internal/bind/naturalrangefilter.go:56-65 | a token with more than one dash that is `--`, or does not both start and end with a dash, is an invalid token |
| NaturalRangeFilters.LoneDashRefused | internal/bind/naturalrangefilter.go:73-75 | a lone dash is an invalid token |
| NaturalRangeFilters.AllNaturalsNotNatural | internal/bind/naturalrangefilter.go:57-59 | `-X-` whose X is not a natural number is refused with the error for X |
| NaturalRangeFilters.NoDashNotNatural | internal/bind/naturalrangefilter.go:122-126 | a token without a dash that is not a natural number is refused with the error for the token |
| NaturalRangeFilters.OneDashNotNatural | internal/bind/naturalrangefilter.go:77-117 | a one-dash token is refused with the error for its left side when that side is written and not natural, and otherwise for its right side when that side is not natural |
| NaturalRangeFilters.ReadPrefix | internal/bind/naturalrangefilter.go:48-132 | after i tokens that each add a range there are i ranges, and the last number is the high end of the last range |
| NaturalRangeFilters.PrefixResumes | internal/bind/naturalrangefilter.go:48-132 | after a prefix of tokens that each add a range, reading the whole list goes on from that prefix's last number and ranges |
| NaturalRangeFilters.PrefixAll | internal/bind/naturalrangefilter.go:48-134 | when every token adds a range, the result is the ranges read, one per token |
| NaturalRangeFilters.PrefixStops | internal/bind/naturalrangefilter.go:50-66 | the first token that adds no range decides: a blank token fails with its position, a refused token fails with its error, and `-N-` gives all naturals, dropping earlier ranges and ignoring later tokens |
| NaturalRangeFilters.PrefixEnds | internal/bind/naturalrangefilter.go:48-132 | every token list is either read to its end or has a first token that adds no range |
| NaturalRangeFilters.AllNaturalsTokenStops | internal/bind/naturalrangefilter.go:56-62 | a `-N-` token gives the all-naturals filter, whatever ranges were read before it and whatever tokens follow it |
| NaturalRangeFilters.DecreasingValueFails | internal/bind/naturalrangefilter.go:127-129 | a value token below the last number makes reading fail as decreasing |
| NaturalRangeFilters.RefusedTokenFails | internal/bind/naturalrangefilter.go:50-131 | a refused token makes reading fail with that token's error |
| NaturalRangeFilters.FilterIsTokens | internal/bind/naturalrangefilter.go:37-48 | a text that is neither blank nor `all` is read as its trimmed text split at `_` |
| NaturalRangeFilters.FilterReadToEnd | internal/bind/naturalrangefilter.go:48-134 | a text whose tokens each add a range is the filter of those ranges, one per token |
| NaturalRangeFilters.FilterReading | internal/bind/naturalrangefilter.go:35-135 | for every text other than blank and `all`: its tokens up to the first one that adds no range give the ranges, one each; with no such token the text is those ranges; otherwise that token decides, as in PrefixStops |
| NaturalRangeFilters.FilterAllNaturalsToken | internal/bind/naturalrangefilter.go:56-62 | a `-N-` token after tokens that each add a range makes the text all naturals |
| NaturalRangeFilters.FilterBlankToken | internal/bind/naturalrangefilter.go:51-54 | a blank token after tokens that each add a range makes the text fail with that token's position |
| NaturalRangeFilters.FilterRefusedToken | internal/bind/naturalrangefilter.go:50-131 | a refused token after tokens that each add a range makes the text fail with that token's error |
| NaturalRangeFilters.FilterDecreasingValue | internal/bind/naturalrangefilter.go:127-129 | a value token below the high end of the range before it makes the text fail as decreasing |
| NaturalRangeFilters.Test | internal/bind/naturalrangefilter.go:155-166 | true exactly when n is natural and in some range |
| NaturalRangeFilters.IsNotEmpty | internal/bind/naturalrangefilter.go:168-181 | true exactly when the filter accepts some number |
| NaturalRangeFilters.MeetsNaturals | internal/bind/naturalrangefilter.go:170-181 | a range meets [0, +inf) exactly when the filter accepts one of its numbers |
| NaturalRangeFilters.IsAllNatural | internal/bind/naturalrangefilter.go:183-211 | true exactly when every natural number is accepted |
| FilterNormalization.Clamp | internal/bind/naturalrangefilter.go:225-231 | closed, starting at a natural number, with the same natural members |
| FilterNormalization.Valids | internal/bind/naturalrangefilter.go:223-235 | every kept range is valid, closed, starts at a natural number and reaches 0 |
| FilterNormalization.ValidsMembers | internal/bind/naturalrangefilter.go:223-235 | the kept ranges hold exactly the natural members of the input |
| FilterNormalization.RightMin | internal/bind/naturalrangefilter.go:248-258 | the least lower end of a right-unbounded range, None when there is none |
| FilterNormalization.CollectMembers | internal/bind/naturalrangefilter.go:248-269 | the intervals before sorting hold exactly the members of the kept ranges |
| FilterNormalization.SortSRanges | internal/bind/naturalrangefilter.go:275-286 | a sorted permutation under the comparator |
| FilterNormalization.SortedUnique | internal/bind/naturalrangefilter.go:275-286 | the comparator is total, so the sorted order is unique |
| FilterNormalization.MergeAsWrittenShape | internal/bind/naturalrangefilter.go:288-311 | the merge as written adds no number; it leaves natural lower ends in ascending order, every interval but the last bounded and ending more than one below the next start, and a non-empty list for a non-empty input |
| FilterNormalization.Absorb | internal/bind/naturalrangefilter.go:302-307 | holds of the corrected definition, not of lines 303-306 (see Findings): the merged interval holds exactly the members of the two |
| FilterNormalization.MergeRestCorrect | internal/bind/naturalrangefilter.go:288-311 | holds of the corrected definition MergeRest, not of the merge as written: the merge keeps exactly its integers and leaves the intervals separated by gaps |
| FilterNormalization.Normalize | internal/bind/naturalrangefilter.go:218-327 | the stages compute NormalizeAsWritten, the normalisation as the source writes it |
| FilterNormalization.ClampAll | internal/bind/naturalrangefilter.go:223-235 | the first loop computes Valids |
| FilterNormalization.FindRightMin | internal/bind/naturalrangefilter.go:248-258 | the second loop computes RightMin |
| FilterNormalization.CollectBounded | internal/bind/naturalrangefilter.go:263-269 | the third loop collects the bounded ranges |
| FilterNormalization.Merge | internal/bind/naturalrangefilter.go:288-311 | the merge loop computes MergeRestAsWritten, the merge as the source writes it |
| FilterNormalization.FromIntervals | internal/bind/naturalrangefilter.go:313-324 | the last loop converts each interval |
| FilterNormalization.ToRanges | internal/bind/naturalrangefilter.go:313-324 | one range per interval, by its shape |
| FilterNormalization.NormalizeAsWrittenShape | internal/bind/naturalrangefilter.go:218-327 | as written, the result has natural lower ends in ascending order; each range is a single value, a closed interval or a right half-line; only the last may be unbounded; a gap of at least one integer follows each but the last; it is empty exactly when no range is kept |
| FilterNormalization.NormalizeAsWrittenSound | internal/bind/naturalrangefilter.go:218-327 | as written, every number kept is a natural member of the input, for ranges whose unbounded ends are open |
| FilterNormalization.NormalizeAsWrittenParsed | internal/bind/naturalrangefilter.go:218-327 | as written, for a parsed filter, every number kept is accepted by the filter |
| FilterNormalization.WrittenCanonicalValid | internal/bind/naturalrangefilter.go:313-327 | a result of that shape with no empty range has the shape the parser reads back |
| FilterNormalization.NormalizeMembers | internal/bind/naturalrangefilter.go:218-327 | holds of the corrected definition NormalizeCorrected: normalisation keeps exactly the natural members of ranges whose unbounded ends are open |
| FilterNormalization.NormalizeCanonical | internal/bind/naturalrangefilter.go:313-327 | holds of the corrected definition NormalizeCorrected: the result is ascending, natural, and separated by gaps of at least one integer |
| FilterNormalization.NormalizeParsed | internal/bind/naturalrangefilter.go:218-327 | holds of the corrected definition NormalizeCorrected: for a parsed filter, normalisation keeps exactly the accepted numbers |
| FilterNormalization.String | internal/bind/naturalrangefilter.go:329-355 | computes the text of the ranges normalised as the source writes it |
| FilterNormalization.WriteRanges | internal/bind/naturalrangefilter.go:333-354 | empty, `all`, or the parts joined by `_` |
| FilterNormalization.StringReadsBack | internal/bind/naturalrangefilter.go:329-355 | when the normalisation as written leaves no empty range, the parser reads String's text back as those ranges, with the same natural members |
| FilterNormalization.StringAcceptsNoMore | internal/bind/naturalrangefilter.go:329-355 | then a filter read from text, printed and read again, accepts no number the original refuses |
| FilterNormalization.StringRoundTrip | internal/bind/naturalrangefilter.go:329-355 | holds of the corrected definition FilterStringCorrected: the parser reads the text back as the normalised ranges, with the same natural members |
| FilterNormalization.StringPreservesAccepted | internal/bind/naturalrangefilter.go:329-355 | holds of the corrected definition FilterStringCorrected: a filter read from text, printed and read again, accepts the same numbers |
| FilterNormalization.ExampleLeftOpen | internal/bind/naturalrangefilter_test.go:21 | `-4` is read as (-inf, 4] and printed as `0-4` |
| FilterNormalization.ExampleAdjacentValuesMerge | internal/bind/naturalrangefilter_test.go:24 | `1_2` is read as {1} and {2} and printed as `1-2` |
| FilterNormalization.ExampleRangeAndValueMerge | internal/bind/naturalrangefilter_test.go:27 | `1-3_4` is read as [1, 3] and {4} and printed as `1-4` |
| FilterNormalization.ExampleCompound | internal/bind/naturalrangefilter_test.go:29 | `1_3-5_7-7` is read as {1}, [3, 5] and [7, 7] and printed as `1_3-5_7` |
| FilterNormalization.OneTokenRefused | internal/bind/naturalrangefilter.go:48-66 | a one-token text whose token is refused fails with that token's error |
| FilterNormalization.AllNaturalsText | internal/bind/naturalrangefilter.go:56-62 | `-N-` alone is every natural number |
| FilterNormalization.TwoDashesText | internal/bind/naturalrangefilter.go:56-65 | digits with two dashes form an invalid token unless the text is `-N-` |
| FilterNormalization.OneDashText | internal/bind/naturalrangefilter.go:77-117 | a one-dash text is refused for its left side when that side is not natural, and otherwise for its right side when that side is not natural |
| FilterNormalization.DashedNotNaturalText | internal/bind/naturalrangefilter.go:57-59 | `-X-` whose X is not natural is refused for X |
| FilterNormalization.BlankSecondText | internal/bind/naturalrangefilter.go:51-54 | `N__M` fails at its blank second token |
| FilterNormalization.LoneSeparatorText | internal/bind/naturalrangefilter.go:51-54 | `_` fails at its blank first token |
| FilterNormalization.ValueThenRefused | internal/bind/naturalrangefilter.go:48-131 | a value token followed by a refused token fails with the second token's error |
| FilterNormalization.ValuesThenRefused | internal/bind/naturalrangefilter.go:48-131 | two non-decreasing value tokens followed by a refused token fail with the third token's error |
| FilterNormalization.DecreasingIntervalText | internal/bind/naturalrangefilter.go:87-92 | `N_M-K` with M below N fails as decreasing, with M and N |
| FilterNormalization.DecreasingValueText | internal/bind/naturalrangefilter.go:127-129 | `N_M_K` with N <= M and K below M fails as decreasing, with K and M |
| FilterNormalization.DecreasingUpToText | internal/bind/naturalrangefilter.go:113-115 | `-M_N` with N below M fails as decreasing at the second token |
| FilterNormalization.ExampleAllNaturalsToken | internal/bind/naturalrangefilter_test.go:19 | `-5-` is every natural number |
| FilterNormalization.ExampleBlankTokens | internal/bind/naturalrangefilter_test.go:66-67 | `_` and `1__2` fail at their first blank token |
| FilterNormalization.ExampleDecreasing | internal/bind/naturalrangefilter_test.go:69-71 | `3_1-4`, `1_2_1` and `-5_3` fail because a number decreases |
| FilterNormalization.ExampleNotNatural | internal/bind/naturalrangefilter_test.go:72-77 | `a-b`, `2-b`, `a-3`, `-x-` and `x` fail, each for the part that is not a natural number |
| FilterNormalization.ExampleInvalidTokens | internal/bind/naturalrangefilter_test.go:68-80 | `1--2`, `--`, `1-2-3`, `-1-3` and `2--` fail as invalid tokens |
| FilterNormalization.MergeAsWrittenLosesNumbers | internal/bind/naturalrangefilter.go:303-306 | as written, {a} then [a+1, +inf) normalises to [a, 0], which lacks a + 1 although the input holds it |
| FilterNormalization.MergeCorrectedKeepsNumbers | internal/bind/naturalrangefilter.go:303-306 | the corrected merge gives [a, +inf) for the same input |
| RunHelpers.CheckInStringSlice | internal/bind/run.go:26-33 | true exactly when the value is in the list |
| RunHelpers.CheckMultiFormat | internal/bind/run.go:35-45 | reports the first format that is not allowed; otherwise reports `json` beside another format; otherwise no error |
| RunHelpers.GetRepeatedFlagsName | internal/bind/run.go:190-203 | exactly the names that occur more than once, each once |
| RunHelpers.SplitAtDoubleDash | internal/bind/run.go:435-451 | with no `--`, all arguments come before; otherwise before + `--` + after is the list and before holds no `--` |
| RunHelpers.SplitAtDoubleDashUnique | internal/bind/run.go:438-451 | that equation fixes the split at the first `--` |
| Utils.Fields | internal/bind/utils.go:13-14 | the fields are non-empty and hold no separator |
| Utils.FieldsAreNonEmptyPieces | internal/bind/utils.go:13-14 | the fields are the non-empty pieces of cutting at every separator |
| Utils.SplitAndTrim | internal/bind/utils.go:12-22 | the fields, each trimmed unless trimming empties it |
| Utils.Pieces | internal/bind/utils.go:12-22 | one non-empty, separator-free piece per field |
| Utils.SepsOfSucceeds | internal/bind/utils.go:61-73 | the separators are built exactly when every format is comma, newline or space |
| Utils.SepsOfChars | internal/bind/utils.go:61-74 | the separator set holds exactly the characters the formats name |
| Utils.SepsOfFirstFailure | internal/bind/utils.go:70-72 | a refused list reports its first unsupported format |
| Utils.ParseMultiValues | internal/bind/utils.go:24-82 | computes MultiValues: the empty list, the raw values, the json branch, or the trimmed fields |
| Utils.ReadJsonValues | internal/bind/utils.go:38-59 | the json loop computes JsonValues |
| Utils.JsonFailureSticks | internal/bind/utils.go:55-57 | once a raw value fails, the whole json branch fails with that error |
| Utils.OutputMultiValues | internal/bind/utils.go:84-123 | fails exactly when json is combined with another format, when marshalling fails, or when no listed format is a separator |
| Utils.OutputIgnoresOrder | internal/bind/utils.go:111-121 | apart from json, only which formats are listed matters |
| Utils.OutputSeparated | internal/bind/utils.go:101-121 | for separator formats the text is the values joined by one of their separators |
| Utils.MultiValuesRoundTrip | internal/bind/utils.go:24-123 | values written out and read back under the same separator formats come back unchanged |
| Utils.CollectUnknownFlags | internal/bind/utils.go:125-171 | the scanning loop computes UnknownFlags |
| Utils.UnknownFlagsNotKnown | internal/bind/utils.go:148-150 | no known flag name is reported |
| Utils.UnknownFlagsStopAtDash | internal/bind/utils.go:131-133 | nothing at or after a `--` is collected |
| Utils.LongAssignmentRecorded | internal/bind/utils.go:134-139 | a trailing `--name=value` records value under name, unless name is known |
| Utils.LongLookAheadRecorded | internal/bind/utils.go:140-147 | a trailing `--name value` takes value from the next argument |
| Utils.ShortFlagRecorded | internal/bind/utils.go:151-166 | a trailing `-x` records its attached value |
| Text.TrimSpace | internal/bind/utils.go:16 | the result is no longer than the text and has no white space at either end |
| Text.TrimSpaceTrims | internal/bind/utils.go:16 | the result is the slice of the text left after removing a white-space prefix and a white-space suffix, so only white space is removed |
| Text.Split | internal/bind/naturalrangefilter.go:48 | never empty |
| Text.SplitJoin | internal/bind/naturalrangefilter.go:48 | joining the pieces back gives the input |
| Text.JoinSplit | internal/bind/naturalrangefilter.go:354 | Split inverts Join when no piece holds the separator |
| Text.IndexOf | internal/bind/utils.go:134 | -1 exactly when absent; otherwise the first occurrence |
| Text.AtoiItoa | internal/bind/naturalrangefilter.go:147-153 | Atoi inverts Itoa |
| Text.LowerOfUpper | internal/bind/shell.go:276 | lower-casing forgets an earlier upper-casing |
| Newlines.SplitPreserveNewlines | internal/bind/shell.go:24-57 | computes NewlineParts |
| Newlines.NewlinePartsEmpty | internal/bind/shell.go:27-29 | the empty text gives one empty part |
| Newlines.PartsConcat | internal/bind/shell.go:26-57 | the parts concatenate back to the input |
| Newlines.PartsCanonical | internal/bind/shell.go:26-57 | each line break is a part of its own, text runs are maximal, and `\r\n` is never cut |
| Newlines.CanonicalUnique | internal/bind/shell.go:26-57 | a canonical list is the split of its concatenation |
| Newlines.RestParts | internal/bind/shell.go:32-55 | the loop state (position, buffer) determines the remaining parts |
| PosixQuoting.ShellLiteral | internal/bind/shell.go:59-73 | single-quoted at both ends |
| PosixQuoting.ShellLiteralQuoted | internal/bind/shell.go:62-73 | all three branches give the quote-escaped text in quotes |
| PosixQuoting.ShellLiteralRoundTrip | internal/bind/shell.go:59-73 | under POSIX quoting the literal reads back as the value |
| PowershellQuoting.BuildPowershellLiteral | internal/bind/shell.go:75-100 | computes PowershellLiteralAsWritten, the builder as the source writes it |
| PowershellQuoting.PowershellLiteralAsWrittenRoundTrip | internal/bind/shell.go:75-100 | PowerShell evaluates the literal as written back to the value, for a value without typographic single quotes |
| PowershellQuoting.LiteralAgrees | internal/bind/shell.go:75-100 | on such a value the builder as written and the corrected builder give the same literal |
| PowershellQuoting.QuoteAgrees | internal/bind/shell.go:221-226 | on such a value escapeForPS as written and the corrected quoting give the same text |
| PowershellQuoting.PowershellLiteralRoundTrip | internal/bind/shell.go:75-100 | holds of the corrected definition PowershellLiteral: PowerShell evaluates the literal back to every value |
| PowershellQuoting.Quote | internal/bind/shell.go:221-226 | holds of the corrected definition: a single-quoted literal |
| PowershellQuoting.DoubleQuotesAscii | internal/bind/shell.go:94 | for text without typographic quotes, the corrected doubling is the source's ReplaceAll |
| PowershellQuoting.PiecesAscii | internal/bind/shell.go:81-97 | for such text the corrected pieces equal the pieces as written |
| PowershellQuoting.SmartQuoteAsWritten | internal/bind/shell.go:94 | as written, the text `’` gives `'’'`, which does not read back |
| PowershellQuoting.SmartQuoteCorrected | internal/bind/shell.go:94 | corrected, the text `’` gives `'’’'`, which reads back to it |
| CmdQuoting.BuildCmdLiteral | internal/bind/shell.go:102-125 | computes CmdLiteral |
| CmdQuoting.Piece | internal/bind/shell.go:107-122 | every piece is double-quoted |
| CmdQuoting.CmdLiteralEmpty | internal/bind/shell.go:117-118 | the empty value gives `""` |
| CmdQuoting.CmdLiteralNotInjective | internal/bind/shell.go:108-113 | a line feed and the text `\\n` get the same literal |
| CmdQuoting.UnquotePieces | internal/bind/shell.go:104-124 | the concatenated pieces read back as the concatenated parts |
| CmdQuoting.CmdLiteralRoundTrip | internal/bind/shell.go:102-125 | a value without a backslash reads back from its literal |
| StringOrder.LessTotal | internal/bind/shell.go:137 | the byte order tells distinct keys apart |
| StringOrder.LessTransitive | internal/bind/shell.go:137 | the order is transitive |
| StringOrder.SortStrings | internal/bind/shell.go:133-137 | every key once, and in ascending order |
| StringOrder.SortedUnique | internal/bind/shell.go:137 | two ascending orders of the same keys are equal |
| Shell.CalcEnvName | internal/bind/shell.go:13-22 | an explicit name, or the key upper-cased with `-` as `_`, behind the prefix |
| Shell.BuildLine | internal/bind/shell.go:155-253 | computes Line, which holds the per-dialect line syntax, with the PowerShell name and value quoted as the source writes it |
| Shell.PowershellLineAgrees | internal/bind/shell.go:245-252 | for a name and a value without typographic single quotes, the PowerShell line is the one the corrected quoting gives |
| Shell.ExportKey | internal/bind/shell.go:141-152 | nothing for a nil flag, the flag's error, or its line |
| Shell.CollectLines | internal/bind/shell.go:139-166 | the loop computes ExportLines |
| Shell.ExportLike | internal/bind/shell.go:127-169 | computes Export for the dialect |
| Shell.ExportEnvVarCmdLike | internal/bind/shell.go:127-169 | Export in the cmd dialect, lines joined by CR LF |
| Shell.ExportEnvVarLinuxLike | internal/bind/shell.go:171-207 | Export in the POSIX dialect |
| Shell.ExportEnvVarPowershellLike | internal/bind/shell.go:209-257 | Export in the PowerShell dialect, with the quoting as the source writes it |
| Shell.ExportNilFlags | internal/bind/shell.go:142-144 | a command whose every flag is nil exports the empty text |
| Shell.FirstFailure | internal/bind/shell.go:149-152 | the first failing key of the list, with none failing before it |
| Shell.LinesFailure | internal/bind/shell.go:140-152 | the loop fails exactly at the first failing key, with that key's error |
| Shell.ExportFailure | internal/bind/shell.go:133-152 | fails exactly when some flag's output fails; the error names the least failing key and carries its cause |
| Shell.FailureAnyDialect | internal/bind/shell.go:127-257 | the three exporters fail on the same commands with the same error |
| Shell.PresentMembers | internal/bind/shell.go:140-144 | the keys that get a line are exactly the non-nil flags |
| Shell.PresentAscending | internal/bind/shell.go:137-144 | those keys stay in ascending order |
| Shell.ExportSuccess | internal/bind/shell.go:133-168 | the text joins one line per non-nil flag, in ascending key order, each line the flag's own |
| Shell.PosixLineReads | internal/bind/shell.go:197-203 | after `name=` the shell reads the value back |
| Shell.PowershellLineReads | internal/bind/shell.go:249-253 | after `$Env:name = ` PowerShell evaluates the value back, for a value without typographic single quotes |
| Shell.PowershellNameReads | internal/bind/shell.go:245-248 | the first argument of SetEnvironmentVariable evaluates to the name, for a name without typographic single quotes |
| Shell.CmdSetxLineReads | internal/bind/shell.go:157-161 | the quoted setx argument reads back the value, for values without a backslash |
| Shell.DialectOf | internal/bind/shell.go:259-286 | fails exactly when the type is not an explicit shell and detection failed |
| Shell.ExportEnvVar | internal/bind/shell.go:259-286 | the detection error, or Export in the chosen dialect |
| Shell.CmdExeContainsCmd | internal/bind/shell.go:279 | the `cmd.exe` test adds nothing to the `cmd` test |
| Shell.DetectIgnoresCase | internal/bind/shell.go:276-284 | the detected name's letter case does not change the dialect |

## Left out

- JSON encoding and decoding (`json.Marshal`, `json.Unmarshal`) are function parameters of the members that need them, not a model of JSON.
- `detectUserShell` (shell.go:290-345) reads the environment and walks the process tree. It is not modelled. Its outcome is the `detected` parameter of `Shell.ExportEnvVar`.
- So is any I/O, and the parts of `run.go` other than the four helpers (`Run`, `collectSpecs`, `collectFlagsName`, `collectFlagsMulti`, the run.go copies of `splitAndTrim` and `parseMultiValues`).
- `Shell.ExportEnvVar` takes a non-nil command, because the source reads `spec.ShellType` before any nil check. The three exporters take an `Option` and return the empty text for None, as the source does for nil.
- A nil flag is `None` in the `Flags` map. Go's distinction between a nil slice and an empty slice is not modelled; both are the empty sequence.
- Go's `int` is 64 bits wide. The model uses unbounded integers, so overflow of `last.max + 1` and of `r.Max - r.Min`, and out-of-range numbers in `strconv.Atoi`, are not modelled.
- `strings.TrimSpace`, `ToUpper` and `ToLower` are modelled on ASCII white space and letters. Text indexing is per character, not per UTF-8 byte. Byte order and code-point order agree on UTF-8, so the order of `sort.Strings` is unaffected.
- Errors are datatypes with the data that picks out the failing case, not the message text.
- `sort.Strings` and `sort.Slice` are modelled by what they produce: the unique ascending sequence. The comparator is total on the values sorted, so the model proves that sequence unique.
- The three Go exporters share one loop in the model (`Shell.ExportLike`, which the three methods call with their dialect), because their loops differ only in the line they build.
- `pflag.FlagSet.Lookup` is modelled as membership in the set of known names.
- FilterNormalization.NormalizeMembers: states the corrected normalisation, NormalizeCorrected, not the source's (see Findings). Membership is proved only for ranges whose unbounded ends are open. Only such ranges are made by the parser and the constructors. For other ranges the source's clamping reads the fields differently from `Contains`.
- FilterNormalization.NormalizeAsWrittenSound: the merge as written loses numbers (see Findings), so only the direction "kept implies in the input" holds; MergeAsWrittenShape proves ascending lower ends, not strictly ascending ones.
- FilterNormalization.StringReadsBack: the text of a result holding an empty interval, such as `1-0` for the filter `1_2-`, is refused by the parser, so the round trip is stated only when every normalised range is valid.
- FilterNormalization.Absorb: states the corrected absorb, not lines 303-306 of the source (see Findings).
- FilterNormalization.MergeRestCorrect: states the corrected merge MergeRest; the source's merge is MergeRestAsWritten, whose properties MergeAsWrittenShape states.
- FilterNormalization.NormalizeCanonical: states NormalizeCorrected; NormalizeAsWrittenShape states the source's.
- FilterNormalization.NormalizeParsed: states NormalizeCorrected; NormalizeAsWrittenParsed states the source's.
- FilterNormalization.StringRoundTrip: states FilterStringCorrected; StringReadsBack states the source's String.
- FilterNormalization.StringPreservesAccepted: states FilterStringCorrected; StringAcceptsNoMore states the source's String.
- IntRangeSyntax.ParseableRoundTrip: a range with an inclusive unbounded end or with disordered bounded ends is not covered, because its text does not read back.
- CmdQuoting.CmdLiteralRoundTrip and Shell.CmdSetxLineReads require a value without a backslash, because the literal is not injective otherwise (see CmdQuoting.CmdLiteralNotInjective). The reader models the escapes the builder writes, not the full command-line parsing of cmd.exe.
- Session `set "NAME=..."` lines (shell.go:162-165) are modelled in `Shell.Line` but no reader is proved for them, because the quote trimming the source does leaves no consistent quoting to read.
- The PowerShell reader covers single- and double-quoted strings, backtick escapes and ` + `. It does not interpret `$` expansion or `` `u{...} `` escapes, which the literals never contain in a double-quoted piece.
- PowershellQuoting.PowershellLiteralRoundTrip: states the corrected builder PowershellLiteral, not the source's (see Findings); PowershellLiteralAsWrittenRoundTrip states the source's, for values without typographic single quotes.
- PowershellQuoting.Quote: the corrected quoting, not escapeForPS as written; QuoteAgrees ties the two together on text without typographic single quotes.
- Shell.PowershellLineReads: the value must hold no typographic single quote, because the literal as written does not read back otherwise (see PowershellQuoting.SmartQuoteAsWritten).
- Shell.PowershellNameReads: the name must hold no typographic single quote, for the same reason.

## Findings

| source | as written | input that shows it | evidently intended | confidence | as-written member | corrected member |
|---|---|---|---|---|---|---|
| internal/bind/naturalrangefilter.go:303-306 | an absorbed interval takes over the upper end of the next one: it never takes over its unboundedness, and it shrinks when the next one ends earlier | the ranges {1} and [2, +inf), from the filter `1_2-`, merge into [1, 0]: an empty range, so 1, 2 and every later number are lost | the merged end is the larger one, and it is unbounded when either is | not executed | FilterNormalization.MergeAsWrittenLosesNumbers | FilterNormalization.MergeCorrectedKeepsNumbers |
| internal/bind/shell.go:94 | inside a single-quoted PowerShell string only the ASCII apostrophe is doubled (here and in escapeForPS at lines 221-226), but PowerShell also ends the string at U+2018, U+2019, U+201A and U+201B | the value `’` gives the literal `'’'`, which closes at `’` and leaves `'` unterminated | every character PowerShell reads as a single quote is doubled | not executed | PowershellQuoting.SmartQuoteAsWritten | PowershellQuoting.SmartQuoteCorrected |
