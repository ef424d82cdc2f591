# HTML Tag Matcher — verified model of the tag-matching core

The HTML Tag Matcher is a browser page. It checks that the tags of a pasted HTML
fragment are properly nested, using a stack. This project models the part of
`script.js` that does the checking, and proves the properties it promises.

The model follows the four stages of the core:

- **Tag extraction** (`extractTags`, `getLineNumber`). The global regular
  expression `/<\/?([a-zA-Z][a-zA-Z0-9]*)\b[^>]*>/g` becomes an explicit
  matcher, `Scanner.MatchAt`. It is proved equal to a declarative statement of
  what the pattern accepts (`Scanner.IsPatternMatch`). The `exec` loop becomes
  `Scanner.ExtractTags`, proved to return the leftmost-match scan
  `Scanner.Tokenize`. Line numbers are `split('\n').length` of the prefix,
  modelled with `Text.Split`.
- **Stack validation** (`validateTags` and the stack helpers). The
  `HTMLTagMatcher` object becomes the class `Matcher.TagMatcher`, with the
  fields `stack`, `tags` and `errors`. Its methods update those fields in
  place. They are proved to compute exactly the value-level specification
  `Validation.Step`, `Validation.Run` and `Validation.Validate`, and the
  properties of the error list are proved about that specification.
- **Per-tag match lookup** (`findMatchingOpeningTag`,
  `findMatchingClosingTag`). These are modelled as written, including their
  disagreement with the validator on nested input. The local array is only
  ever consulted through its length, so it becomes a counter.
- **Summary counts** (the "Validation Summary" block of
  `displayDetailedReport`).

`Scenarios` pins down edge cases on concrete inputs, from the text all the way
to the error list.

Modules: `Tokens` (shared values), `Text` (JavaScript `trim` and
`split('\n')`), `Scanner`, `Validation`, `Matcher`, `MatchIndex`, `Report` and
`Scenarios`.

## Model

| member | source | states |
|---|---|---|
| Text.Trim | script.js:93 | `trim` removes exactly the ECMAScript whitespace at both ends: the result is one contiguous slice with only whitespace on either side, it neither starts nor ends with whitespace, and it is empty exactly when the input is all whitespace |
| Text.LineNumber | script.js:87-89 | `getLineNumber` is 1 plus the number of `'\n'` before the position, so it is at least 1 |
| Text.SplitLength | script.js:88 | `split('\n')` yields one more piece than there are newlines |
| Text.SplitPiecesHaveNoNewline | script.js:88 | no piece of `split('\n')` contains a newline |
| Text.SplitJoin | script.js:88 | joining the pieces of `split('\n')` with `'\n'` gives back the text |
| Text.LineNumberMonotone | script.js:87-89 | line numbers never decrease as the position moves right |
| Scanner.MatchAt | script.js:65 | a match found at a position satisfies every part of the pattern: `<`, optional `/`, a letter-then-alphanumeric name, `\b`, no `>` before the final `>` |
| Scanner.MatchAtComplete | script.js:65 | every match the pattern admits at a position is the one `MatchAt` returns, so the pattern has at most one match per position |
| Scanner.MatchAtNoneMeansNoMatch | script.js:65 | when `MatchAt` finds nothing, no match of the pattern starts there |
| Scanner.MatchHasOneGt | script.js:65 | the only `>` of a match is its last character |
| Scanner.TokenAt | script.js:71-80 | the token built from a match is well formed: `fullTag` is the matched slice, starts with `<`, `isClosing` holds exactly when its second character is `/`, the name follows, then a non-word character, and the only `>` is the last character; `line` is `getLineNumber` of the match position |
| Scanner.TokenizeFromMatch | script.js:70-81 | a match at the search position becomes the next token, with the captured name, the matched text, `isClosing` from the `</` prefix and line 1 + newlines before it, and the search continues at the match's end |
| Scanner.ExtractTags | script.js:64-85 | the extraction loop returns exactly the leftmost-match token sequence `Tokenize(html)` |
| Scanner.TokenizeIsLeftmost | script.js:70 | the token list is empty exactly when no match exists; otherwise its first token is the leftmost match and the rest is the scan from that match's end |
| Scanner.TokenizeFromValid | script.js:65-81 | every token found from any search position is a well-formed match of the text |
| Scanner.TokenizeFromOrdered | script.js:70-79 | tokens found from a position start at or after it, and each ends before the next begins |
| Scanner.TokensWellFormed | script.js:65-81 | every extracted token is well formed, and positions strictly increase with no overlapping matches |
| Scanner.TokenLines | script.js:79-80 | every token's line is 1 plus the newlines before its position; lines start at 1 and never decrease along the list |
| Validation.Step | script.js:118-143 | one loop iteration: errors are only appended, at most one per tag; an error is added exactly for a closing tag on an empty stack (`extra_closing`) or one naming something other than the top (`mismatch`, `expected` = top), and then the stack is unchanged; an opening tag pushes its name; a closing tag naming the top pops it |
| Validation.RunAppendsErrors | script.js:115-144 | the pass never removes or rewrites an error; every error it adds is an `extra_closing` or `mismatch` about a closing tag of the input |
| Validation.ScanErrorsInTokenOrder | script.js:115-144 | errors come out in token order: the errors of a prefix of the tags are a prefix of the errors of all of them |
| Validation.UnclosedErrorsLifo | script.js:146-154 | the drain reports every remaining stack entry exactly once, innermost first |
| Validation.ErrorOrder | script.js:105-154 | the final error list is all in-scan errors (each about a closing tag of the input) followed by one `unclosed` per name left on the stack, top first |
| Validation.RunElement | script.js:118-134 | an opening tag, a stretch that restores the state, and the same-name closing tag together leave the stack and errors unchanged |
| Validation.WellNestedRun | script.js:115-144 | a properly nested token sequence leaves the stack and the error list as it found them |
| Validation.WellNestedIsValid | script.js:115-154 | a properly nested token sequence ends with an empty stack and no error |
| Matcher.TagMatcher.constructor | script.js:3-6 | the stack, tags and errors start empty |
| Matcher.TagMatcher.Push | script.js:41-44 | `push` appends exactly the name to the stack and changes nothing else |
| Matcher.TagMatcher.Pop | script.js:46-53 | `pop` removes and returns the top; on an empty stack it returns null and changes nothing |
| Matcher.TagMatcher.Peek | script.js:55-57 | `peek` is null exactly on an empty stack, otherwise the top entry |
| Matcher.TagMatcher.IsEmpty | script.js:59-61 | `isEmpty` holds exactly when the stack has no entry |
| Matcher.TagMatcher.CheckNesting | script.js:115-144 | the validation loop leaves `stack` and `errors` as `Run` prescribes from their starting values, and leaves `tags` alone |
| Matcher.TagMatcher.ReportUnclosed | script.js:146-154 | the drain empties the stack and appends `UnclosedErrors` of the old stack |
| Matcher.TagMatcher.ValidateTags | script.js:92-154 | blank input returns before touching any state; otherwise `tags` is the extraction of the trimmed input, the stack ends empty, and `errors` is empty when there are no tags and `Validate(tags)` otherwise, so the result depends only on the input and never on an earlier run |
| MatchIndex.FindMatchingOpeningTag | script.js:377-395 | returns -1 or an earlier same-name opening tag at which the counter for the local array is back to 0, and no nearer index qualifies |
| MatchIndex.FindMatchingClosingTag | script.js:397-415 | returns -1 or a later same-name closing tag at which the counter is back to 0, and no nearer index qualifies |
| MatchIndex.AdjacentPairMatches | script.js:377-415 | an opening tag directly followed by its closing tag is matched in both directions |
| MatchIndex.NestedOuterPairUnmatched | script.js:377-415 | in `<a><b></b></a>` (any two distinct names) neither outer tag has a qualifying partner |
| Report.OpeningPlusClosing | script.js:449-451 | the opening count plus the closing count is the total tag count |
| Report.Summary | script.js:449-452 | the summary reports the tag total and the error count, and its opening and closing counts add up to the total |
| Report.WellNestedBalanced | script.js:450-451 | a properly nested document has as many opening as closing tags |
| Report.WellNestedSummary | script.js:312 | a properly nested document is reported valid, with balanced opening and closing counts |
| Scenarios.SelfClosingIsOpener | script.js:73 | `<br/>` is one opening tag and is reported unclosed |
| Scenarios.DoctypeIsSkipped | script.js:65 | a `<` that cannot start a tag (`<!x>`) yields no token |
| Scenarios.UnderscoreRejectsName | script.js:65 | `\b` rejects a name followed by `_`, so `<a_b>` yields no token |
| Scenarios.LessThanInsideTagIsSwallowed | script.js:65 | `[^>]*` runs over a second `<`: `<a <b>` is one token |
| Scenarios.MismatchTail | script.js:70-81 | in `<a></b>` the search from offset 3 finds the single token `</b>` |
| Scenarios.MismatchTokens | script.js:64-85 | `<a></b>` yields an opening `a` and a closing `b` |
| Scenarios.MismatchThenUnclosed | script.js:134-154 | on `<a></b>` the `mismatch` (expected `a`) does not pop, so `a` is also reported unclosed, after it |
| Scenarios.LoneClosingTag | script.js:125-130 | `</a>` alone is one `extra_closing` error and nothing is unclosed |
| Scenarios.TwoLineTail | script.js:80 | in `<a>\n</a>` the closing tag is found on line 2 |
| Scenarios.TwoLineTokens | script.js:64-89 | `<a>\n</a>` yields `<a>` on line 1 and `</a>` on line 2 |
| Scenarios.LinesCountNewlines | script.js:87-154 | a pair split over two lines is valid and keeps its line numbers |
| Scenarios.IndexerDisagreesWithValidator | script.js:115-154 | on `<a><b></b></a>` the validator finds no error while both outer tags have no match-lookup partner and the inner pair matches |
| Scenarios.BlankInputIsEmpty | script.js:93-98 | input made only of whitespace trims to the empty string, the blank-input exit |

## Left out

- The DOM and presentation code is not modelled: element lookup, event binding, rendering of results, the tag list, the stack view and the report, status updates, `resetResults`, `showError`, `clearAll` and `loadSampleData`. The text of the input box is a parameter of `ValidateTags`, and its outcome (`EmptyInput`, `NoTags`, `Validated`) stands for the two `showError` exits and `displayResults`.
- `stepThroughValidation` is not modelled. It is asynchronous and timer-driven, and its validation steps repeat `validateTags`.
- `highlightCurrentTag`, `delay`, `escapeHtml`, the keyboard shortcuts and the tooltips are not modelled, because they are browser plumbing.
- The fields `currentStep`, `isStepping` and `stepDelay` are not modelled; only the step-through uses them.
- The human-readable `message` strings of the errors are not modelled. An error is the datatype `ValidationError`, carrying its kind, the token and, for a mismatch, `expected`.
- The `try`/`catch` wrapper around validation is not modelled, because nothing in the modelled core throws.
- The labels that `displayTagAnalysis` shows for each tag are not modelled. What it relies on, the two match lookups, is modelled.
- `Matcher.TagMatcher.Push` and `Matcher.TagMatcher.Pop` do not model the stack-view refresh they trigger, which is DOM output.
- Positions count one Dafny character per JavaScript UTF-16 code unit. A character outside the Basic Multilingual Plane is one Dafny character but two code units in JavaScript, so positions past such a character differ from the program's offsets. Lone surrogates cannot be represented.
- `MatchIndex.FindMatchingOpeningTag` and `MatchIndex.FindMatchingClosingTag` model the local array by its length only, which is all the code consults. The names pushed onto it are never read.
- `Matcher.TagMatcher.CheckNesting` and `Matcher.TagMatcher.ReportUnclosed` are the two loops of `validateTags`, written as separate methods that `ValidateTags` calls in order.
- The converse of `Validation.WellNestedIsValid` (every error-free token sequence is properly nested) is not proved.
