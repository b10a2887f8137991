# remark-flow interaction blocks, in Dafny

A model of the interaction-block parser of remark-flow and of the two remark
plugins that use it.

An interaction block is written `?[...]` in markdown text. The parser works in
three layers:

- **Layer 1** accepts a trimmed input only if it is exactly one block: `?[`, a
  run without `]`, and the closing `]`, with no `(` after it. It hands on the
  content between the brackets.
- **Layer 2** looks for a leading `%{{ name }}` variable marker.
- **Layer 3** applies one of two grammars:
  - **variable grammar:** options split on `|` or `｜`, each option `display//value`, and an optional `...question` part;
  - **display-button grammar:** the buttons of a block without a variable.

Two normalisers flatten the typed result:

- `parseToRemarkFormat` gives the properties of a remark node;
- `parseInteractionFormat` gives the legacy `[type, data]` pair.

Both turn a parse error into a placeholder or question made of the trimmed input.

The two plugins run a callback on each text node. The callback finds the first
block in the node's value and cuts the value into three parts: the text
before, a `custom-variable` element that carries the parsed block, and the
text after. It splices these three nodes over the text node in the parent's
`children`. `remarkCustomVariable` first applies a pre-filter: it leaves a block
alone when its content has `%{` but no `%{{`, or has the empty marker `%{{}}`.

Files:

- `wrappers.dfy`: the `Option` type. It stands for `null`/absent in results and properties.
- `js_strings.dfy`: the JavaScript string semantics the code relies on:
  - the `\s` class, which is also what `trim` removes;
  - the line terminators that a regular-expression `.` does not match;
  - `trim` and `includes`.
- `interaction_parser.dfy`:
  - the data model and the three layers, with every regular expression restated as an explicit scan; the Layer 2 pattern is read in stages, one per part of the pattern (`Layer2DetectVariable`, `DetectName`, `DetectClose`);
  - `_parseButtons` as a loop proved equal to its specification function;
  - the two normalisers as methods that fill the result record field by field.
- `parser_properties.dfy`: what the parser promises about whole inputs:
  - which inputs are errors and which bind a variable;
  - how each grammar reads its content;
  - that no field keeps surrounding whitespace;
  - round trips: a block written from a button list, a variable and a question parses back to them.
- `unist.dfy`: the syntax-tree nodes the plugins touch, and a `Parent` class whose `children` the callbacks rewrite in place.
- `remark_interaction.dfy`, `remark_custom_variable.dfy`: the two callbacks and their specifications.

Points where the code behaves differently from what its comments and examples suggest; the model follows the code:

- **Zero buttons.** A button-carrying result need not have a button. `_parseButtons` drops blank options, so `?[|]` and `?[%{{v}} |]` give an empty button list. `ParserProperties.DisplayButtonsEmptyIff` states exactly when that happens.
- **Single-line matching.** A regular-expression `.` does not match line terminators:
  - the Layer 2 pattern `(.*)$` rejects a marker followed by a multi-line rest;
  - the question after `...` stops at the first line terminator;
  - the `display//value` split does not apply to multi-line text.

  The scans model all three. `(.*)$` is modelled as a scan to the first line terminator (`LineEnd`) that must reach the end of the content.
- **Displays that end in `/`.** A display may hold single slashes, but a display of two or more characters that ends in `/` does not survive `display//value`. Its last slash and the written `//` form a `//` one place earlier, and the split happens there. The same goes for a `//` at index 1 or later inside the display. The display `/` alone, and a `//` at the very start, are harmless, because the lazy group `(.+?)` needs at least one character. `ParserProperties.SplitSafeDisplay` is this class exactly. `ParserProperties.FormatButtonReadsBackIff` proves that a single-line button reads back if and only if its display is in the class, and that otherwise the display comes back shorter. `ParserProperties.TrailingSlashShiftsSplit` works out the smallest case: `c/` with value `v` reads back as `c` and `/v`.
- **The separator test at src/interaction-parser.ts:211.** Both of its branches build the same result, so it makes no difference. `ParserProperties.VariableGrammarWithEllipsis` states the outcome without it.

## Model

| member | source | states |
|---|---|---|
| JsStrings.Trim | src/interaction-parser.ts:159 | `trim` returns a string with no whitespace at either end, no longer than the input, and empty exactly when the input is all whitespace |
| JsStrings.TrimOfPadded | src/interaction-parser.ts:159 | `trim` removes exactly the leading and trailing whitespace and nothing inside |
| JsStrings.TrimIdempotent | src/interaction-parser.ts:312-329 | trimming twice, as `_parseButtons` and `_parseSingleButton` do, equals trimming once |
| JsStrings.ContainsIff | src/remark-custom-variable.ts:67-73 | the `includes` scan holds exactly when the pattern occurs somewhere in the string |
| InteractionParser.FindBlock | src/interaction-parser.ts:21 | the block pattern's match is a `?[`, a run without `]`, and a `]` not followed by `(`; no match starts earlier; no match at all means no position starts one |
| InteractionParser.SpanIsWholeBlock | src/remark-interaction.ts:56-57 | a span the plugins' block pattern matches is trimmed and is one whole block |
| InteractionParser.WholeBlockInner | src/interaction-parser.ts:158-173 | Layer 1 accepts a trimmed whole block and returns the text between its brackets |
| InteractionParser.Layer1ValidateFormat | src/interaction-parser.ts:158-173 | an accepted input gives inner content at least three characters shorter than the input, with no `]` in it |
| InteractionParser.Layer1Characterization | src/interaction-parser.ts:158-173 | Layer 1 accepts exactly the inputs whose trimmed form is one whole block, and returns the text between its brackets |
| InteractionParser.Layer2DetectVariable | src/interaction-parser.ts:181-193 | without a variable, the inner content comes back unchanged; a variable is reported only for content that begins with `%{{` |
| InteractionParser.Layer2Sound | src/interaction-parser.ts:181-193 | every reported variable has the pattern's shape (`%{{`, whitespace, identifier, whitespace, `}}`, single-line rest); the name is that identifier, the rest is the trimmed remainder |
| InteractionParser.Layer2Witness | src/interaction-parser.ts:181-193 | for content reported as a variable, gives the identifier's and the `}}`'s positions where the pattern's shape holds; the name is that identifier and the rest the trimmed remainder |
| InteractionParser.LineEndIff | src/interaction-parser.ts:24 | the `(.*)$` at the end of the variable pattern matches from an index exactly when no line terminator follows it |
| InteractionParser.Layer2Complete | src/interaction-parser.ts:181-193 | every inner content of the pattern's shape is reported as that identifier with that trimmed remainder |
| InteractionParser.SplitOptions | src/interaction-parser.ts:309 | splitting on `|` or `｜` gives at least one piece |
| InteractionParser.SplitPiecesHaveNoSeparator | src/interaction-parser.ts:309 | no piece of the split holds a separator |
| InteractionParser.JoinSplit | src/interaction-parser.ts:309 | joining the pieces with `|` gives back the input with every separator made ASCII: splitting loses only which separator stood where |
| InteractionParser.SplitJoin | src/interaction-parser.ts:309 | splitting the `|`-join of separator-free pieces gives back those pieces |
| InteractionParser.SplitIgnoresSeparatorKind | src/interaction-parser.ts:309 | the ASCII and fullwidth separators may be mixed freely: splitting gives the same pieces |
| InteractionParser.FindEllipsis | src/interaction-parser.ts:27 | the ellipsis pattern matches at the first `...` if no line terminator comes before it, and otherwise not at all |
| InteractionParser.LineEnd | src/interaction-parser.ts:27 | the greedy `(.*)` after `...` runs to the first line terminator or the end |
| InteractionParser.ButtonValueSplit | src/interaction-parser.ts:30 | the `display//value` pattern matches a single-line text at its first `//` that has text on both sides, and fails on multi-line text or text without such a `//` |
| InteractionParser.ParseSingleButton | src/interaction-parser.ts:328-341 | display and value are trimmed, and both are non-empty for any text that is not blank |
| InteractionParser.SingleButtonSplitsAtFirstDoubleSlash | src/interaction-parser.ts:332-337 | a single-line text with a first `//` at `k` gives display and value as the trimmed text before and after it |
| InteractionParser.SingleButtonFallback | src/interaction-parser.ts:338-340 | without such a `//`, or on multi-line text, display and value are both the trimmed text |
| InteractionParser.CollectButtons | src/interaction-parser.ts:311-317 | at most one button per piece |
| InteractionParser.CollectedButtonsFilled | src/interaction-parser.ts:311-317 | every collected button has non-empty, trimmed display and value |
| InteractionParser.Buttons | src/interaction-parser.ts:307-320 | the value of `_parseButtons`: at most one button per piece of the split, each with non-empty, trimmed display and value |
| InteractionParser.CollectButtonsEmpty | src/interaction-parser.ts:311-317 | no button comes out exactly when every piece is blank |
| InteractionParser.ParseButtons | src/interaction-parser.ts:307-320 | the loop returns the buttons of the non-blank pieces, in order, each parsed by `_parseSingleButton` |
| InteractionParser.CollectedButtonsHaveNoSeparator | src/interaction-parser.ts:309-316 | buttons collected from separator-free pieces have no separator in display or value |
| InteractionParser.SingleButtonNoSeparator | src/interaction-parser.ts:328-341 | a button parsed from separator-free text has no separator in its display or value |
| InteractionParser.ButtonsHaveNoSeparator | src/interaction-parser.ts:307-320 | no button `_parseButtons` returns has a separator in its display or value |
| InteractionParser.Layer3ParseVariableInteraction | src/interaction-parser.ts:202-267 | the result always binds the given variable, and has a question exactly when an ellipsis match exists or the content is empty |
| InteractionParser.Parse | src/interaction-parser.ts:90-110 | the result is an error exactly when Layer 1 rejects the input (Layers 2 and 3 never fail), and its message is `Invalid interaction format: ` followed by the input |
| InteractionParser.ParseInner | src/interaction-parser.ts:99-106 | once Layer 1 has accepted the input, Layers 2 and 3 never give an error result |
| InteractionParser.Layer3ParseDisplayButtons | src/interaction-parser.ts:275-299 | the result is always a non-assignment button group |
| InteractionParser.RemarkFormat | src/interaction-parser.ts:118-150 | an error becomes just the trimmed input as placeholder; otherwise the variable name is present iff the result binds a variable, the button lists iff it has buttons, and the placeholder iff it has a question; `buttonTexts[i]`/`buttonValues[i]` are the display/value of button `i`, in two lists of equal length |
| InteractionParser.ParseToRemarkFormat | src/interaction-parser.ts:118-150 | filling the record field by field gives exactly `RemarkFormat` |
| InteractionParser.ParseInteractionFormat | src/interaction-parser.ts:370-406 | an error becomes `TEXT_ONLY` with the trimmed input as question; otherwise the type is the result's type and each data field is present exactly when the result has it |
| ParserProperties.ParseErrorIff | src/interaction-parser.ts:90-96 | parsing fails exactly when the trimmed input is not one whole block, and the error message is `Invalid interaction format: ` followed by the input |
| ParserProperties.ParseDispatch | src/interaction-parser.ts:93-106 | for a whole block, the result binds a variable exactly when the inner content has the marker shape; otherwise it is the display-button grammar applied to the whole untrimmed inner content |
| ParserProperties.InnerDispatch | src/interaction-parser.ts:99-106 | Layers 2 and 3 give a variable result exactly for the marker shape, and the display-button grammar otherwise |
| ParserProperties.Layer2Outputs | src/interaction-parser.ts:189-190 | a bound name is an identifier, and the rest handed to Layer 3 is trimmed and single-line |
| ParserProperties.ParseVariableIsIdentifier | src/interaction-parser.ts:24 | every bound variable is a letter, `_` or CJK ideograph followed by letters, digits, `_` or CJK ideographs |
| ParserProperties.VariableGrammarWithEllipsis | src/interaction-parser.ts:204-239 | on single-line content with a first `...`: non-blank text before it gives `BUTTONS_WITH_TEXT` with its buttons and the trimmed text after; blank text gives `TEXT_ONLY`; the separator test changes nothing |
| ParserProperties.FirstEllipsisFound | src/interaction-parser.ts:27 | on single-line content, the ellipsis pattern matches at the first `...` |
| ParserProperties.VariableGrammarWithoutEllipsis | src/interaction-parser.ts:240-266 | without `...`: empty content gives `TEXT_ONLY` with an empty question; content with a separator gives `BUTTONS_ONLY` with `_parseButtons`; other content gives one `_parseSingleButton` button |
| ParserProperties.DisplayButtonsEmptyIff | src/interaction-parser.ts:284-290 | the display-button grammar yields no button exactly when the content has a separator and every option is blank |
| ParserProperties.DisplayButtonsBlankIff | src/interaction-parser.ts:275-299 | the result is exactly one empty button if and only if the content is blank; any other content gives buttons that all have text |
| ParserProperties.ParseFieldsTrimmed | src/interaction-parser.ts:90-110 | no variable, question, display or value in any result keeps whitespace at either end |
| ParserProperties.VariableGrammarTrimmed | src/interaction-parser.ts:202-267 | the variable grammar's question and buttons are trimmed, given a trimmed name |
| ParserProperties.DisplayGrammarTrimmed | src/interaction-parser.ts:275-299 | the display-button grammar's buttons are trimmed |
| ParserProperties.VariableButtonsNonBlank | src/interaction-parser.ts:240-257 | every button of a variable result has non-empty display and value |
| ParserProperties.VariableGrammarButtonsNonBlank | src/interaction-parser.ts:240-257 | on trimmed content, every button of the variable grammar has text |
| ParserProperties.FormatButtonParses | src/interaction-parser.ts:328-341 | `display//value` parses back to that button, for a trimmed single-line display and value whose display is split-safe: no `//` from index 1 on, and no final `/` unless the display is `/` itself; `Yes/No//y`, `///v` and `//a//v` read back |
| ParserProperties.TrailingSlashShiftsSplit | src/interaction-parser.ts:328-341 | the smallest display that is not split-safe: `c/` with value `v`, written `c///v`, parses as display `c` and value `/v` |
| ParserProperties.FormatButtonReadsBackIff | src/interaction-parser.ts:328-341 | a trimmed single-line button reads back from `display//value` if and only if its display is split-safe |
| ParserProperties.ShiftedSplitShortensDisplay | src/interaction-parser.ts:30 | when the display is not split-safe, the lazy `(.+?)//` splits inside it, and the display read back is shorter |
| ParserProperties.EarlySplitPoint | src/interaction-parser.ts:30 | a display that is not split-safe puts a split point of the written text before the display's end |
| ParserProperties.CollectFormatted | src/interaction-parser.ts:311-317 | collecting written buttons gives them back, for separator-free buttons with split-safe displays |
| ParserProperties.ButtonsRoundTrip | src/interaction-parser.ts:307-320 | `_parseButtons` on a `|`-joined list of written buttons gives back that list, for separator-free buttons with split-safe displays |
| ParserProperties.FormattedReadsBack | src/interaction-parser.ts:307-341 | a written list reads back through `_parseButtons`, and a single written button through `_parseSingleButton`, for buttons with split-safe displays |
| ParserProperties.BlockParses | src/interaction-parser.ts:93-105 | `?[` + inner + `]`, with no `]` in inner, passes Layer 1 with exactly that inner content |
| ParserProperties.VariableHeader | src/interaction-parser.ts:181-193 | `%{{name}}` before a single-line tail is read as that name with the trimmed tail |
| ParserProperties.DisplayBlockRoundTrip | src/interaction-parser.ts:90-110 | a block written from a button list, whose first display does not start with `%{{`, parses to a non-assignment group of exactly those buttons |
| ParserProperties.VariableBlockParses | src/interaction-parser.ts:99-103 | a block with a `%{{name}}` header parses as the variable grammar on the trimmed tail |
| ParserProperties.ButtonsOnlyBlockRoundTrip | src/interaction-parser.ts:240-257 | `?[%{{name}} options]` parses to `BUTTONS_ONLY` with that name and exactly those buttons |
| ParserProperties.TextOnlyBlockRoundTrip | src/interaction-parser.ts:231-237 | `?[%{{name}}...question]` parses to `TEXT_ONLY` with that name and question |
| ParserProperties.ButtonsWithTextBlockRoundTrip | src/interaction-parser.ts:206-230 | `?[%{{name}} options ...question]` parses to `BUTTONS_WITH_TEXT` with that name, those buttons and that question |
| ParserProperties.TextThenQuestion | src/interaction-parser.ts:204-230 | single-line, trimmed, non-empty text without `...`, then ` ...` and a trimmed question, is read as `BUTTONS_WITH_TEXT` with that text's buttons and that question |
| ParserProperties.ListThenQuestion | src/interaction-parser.ts:206-230 | the variable grammar reads written options, ` ...` and a question back as those buttons and that question |
| ParserProperties.BadNameIsNoVariable | src/interaction-parser.ts:24 | a marker whose name begins with a character an identifier cannot start with, such as a digit, is not a variable |
| ParserProperties.BadNameBlockIsDisplayButtons | src/interaction-parser.ts:99-106 | such a block, for example `?[%{{1变量}} option]`, becomes display buttons over its whole inner content |
| ParserProperties.LineEndOfSingleLine | src/interaction-parser.ts:27 | on single-line content, the question after `...` runs to the end |
| RemarkInteraction.CreateSegments | src/remark-interaction.ts:15-39 | exactly three nodes: text, element, text; the element has the given name and properties; the first text is the value before the start; the first text, then the span, then the last text give back the value |
| RemarkInteraction.Visited | src/remark-interaction.ts:49-75 | with no block, the children are unchanged; with one, the node at the index is replaced by the three segments for the first block, parsed with `parseToRemarkFormat`; all other children keep their order and the length grows by 2 |
| RemarkInteraction.VisitText | src/remark-interaction.ts:49-75 | the callback leaves the children alone when the index or parent is null, and otherwise splices in place to exactly `Visited` |
| RemarkInteraction.FoundBlockParses | src/remark-interaction.ts:56-65 | the matched span passes Layer 1 with the match's group 1 as inner content, so its parse is never an error |
| RemarkInteraction.PrefixHasNoBlock | src/remark-interaction.ts:56-62 | the text before the first block holds no block |
| RemarkInteraction.VisitedSplitsFirstBlock | src/remark-interaction.ts:59-69 | after the splice: text before the block (itself block-free), the `custom-variable` element with the span's properties, text after; prefix, span and suffix give back the value |
| RemarkCustomVariable.SkippedByPrefilter | src/remark-custom-variable.ts:66-76 | the nested `%{` / `%{{` / `%{{}}` checks: content holding the empty marker `%{{}}` is always skipped, and content that binds a variable is skipped only when it holds `%{{}}` |
| RemarkCustomVariable.Visited | src/remark-custom-variable.ts:53-59 | with no block in the text node the children are unchanged |
| RemarkCustomVariable.VisitText | src/remark-custom-variable.ts:49-88 | the callback with its nested `%{` / `%{{` / `%{{}}` checks leaves the children alone on null index or parent, and otherwise rewrites them in place to exactly `Visited`: unchanged with no block or a skipped one, the splice otherwise |
| RemarkCustomVariable.KeptBlockIsSpliced | src/remark-custom-variable.ts:66-83 | a block the pre-filter keeps is handled exactly as the interaction plugin's callback handles it: the node at the index becomes the three segments for that block; the other children keep their order |
| RemarkCustomVariable.SkippedLeavesChildren | src/remark-custom-variable.ts:65-76 | a block the pre-filter skips leaves the children as they were |
| RemarkCustomVariable.BareMarkerNeverBinds | src/remark-custom-variable.ts:67-71 | content with `%{` but without `%{{` never binds a variable, so the first rule drops only blocks the parser would read as buttons |
| RemarkCustomVariable.VariableHasMarker | src/remark-custom-variable.ts:67-68 | content that binds a variable contains `%{{` |
| RemarkCustomVariable.PrefilterDropsVariableOnlyForEmptyMarker | src/remark-custom-variable.ts:67-75 | a block that binds a variable is skipped exactly when it contains `%{{}}` |
| RemarkCustomVariable.BareMarkerBlockHasNoVariableName | src/remark-custom-variable.ts:66-79 | for the block found, a bare `%{` marker means the parsed properties carry no variable name |

## Left out

- The tree walk of `unist-util-visit` is not modelled; only one application of the callback is. How later blocks, in the suffix text node, are reached depends on that walk over a growing `children` list.
- The `try`/`catch` paths are not modelled: `Parsing error: ...` in `parse` and `console.warn` in both plugins. Nothing in the modelled code throws, so those paths cannot be reached.
- `createInteractionParser`, `src/index.ts` and `src/remark-flow.ts` are left out. They only construct objects and re-export.
- The parser class and its instance are left out: `InteractionParser` has no fields, so its members are module-level functions.
- The `createSegments` of `src/remark-custom-variable.ts:15-39` has the same body as the interaction plugin's. It is modelled once, as `RemarkInteraction.CreateSegments`.
- RemarkInteraction.CreateSegments: requires `startIndex <= endIndex <= |value|`, which the callers' match bounds guarantee. It does not model how `substring` clamps other arguments.
- RemarkInteraction.VisitText: requires the index to lie within the parent's children, as the tree walk guarantees. It does not model `splice` appending at an index past the end.
- RemarkCustomVariable.VisitText: the same index requirement as `RemarkInteraction.VisitText`.
- Strings are sequences of Unicode code points, whereas JavaScript indexes UTF-16 code units. No pattern here treats a surrogate pair differently from two other characters. So results agree, but a match position after a character outside the Basic Multilingual Plane counts one where JavaScript counts two.
- `parseInteractionFormat` returns data typed `any`. It is modelled as a record of optional fields.
