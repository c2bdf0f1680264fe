# regexp-sourcemaps in Dafny

This project models `lib/regexp-sourcemaps.ts`, a regular-expression replacer that also builds a source map. Every match of a regular expression in the content is replaced by a template with its `$n` / `${n}` references filled in. Each piece of the output keeps a mapping to where it came from:

- unmatched content maps to its own place in the file;
- template text maps to its place in the template, which is registered as the source `regexp/<name>`;
- the value of a reference maps to the place in the file where the match starts.

The modules follow the structure of the source file:

- `SourceNodes` (`source_node.dfy`) stands in for the `SourceNode` of the `source-map` library. A node is an append-only sequence of `Fragment`s (line, column, source, text) plus a map of registered source contents.
- `PositionTracking` (`position.dfy`) holds the class `Position`:
  - `forward` moves the cursor over text, counting lines and the length of the last line.
  - `add` cuts text at `lineMatcher` (`/\n/gm`) and maps one fragment per line segment.
  - Both are proved against `Forwarded`, which moves the cursor character by character, and against `Emit`, the fragments of one `add`.
- `Templates` (`template.dfy`) models the `varMatcher` grammar (`\$({(\d+)}|\d+)`). It reads a template into literal and reference `Part`s and looks a reference key up in a match (`match[key]`).
- `Replacing` (`replacer.dfy`) holds the class `Replacer`. It also holds `ExpandParts`, what `createReplaceNode` builds, and `ReplaceSpec`, what `replace` produces, together with their properties.
- `Demo` (`demo.dfy`) works through `test/demo.ts`. The regular expression is `/some(.*?)content/`, the template is `my $1 result` under the name `regexpName`, and the content is `somesupercontent`. The output is `my super result`, and the fragments are:
  - `"my "` at (1, 0) of `regexp/regexpName`;
  - `"super"` at (1, 0) of `/path/to/file`;
  - `" result"` at (1, 3) of `regexp/regexpName`.

Behaviour of the code that the model keeps:

- **The template cursor moves over literal text only.** `createReplaceNode` forwards `replacePos` over each literal. A reference's value is added with `autoForward` false at the content cursor, so the characters of `$1` are never counted. The literal after a reference is therefore mapped to a template column that leaves those characters out, as in the demo: `" result"` is at column 5 of the template but is mapped to column 3. `ExpandAppend` states this.
- **An undefined group stops the replacement.** The code hands `match[key]` to `add` whatever its value. For a group that did not take part, for a group past the last one, and for a key such as `01` that is not an array index, that value is `undefined`, and `add` then throws. One could expect an undefined reference to be replaced by the empty string instead, but the model follows the code: `replace` returns `Failure(MissingGroup(key))`.
- **Keys.** `$0` is the whole match, and an unbraced reference is greedy: `$10` is group 10.
- **Advancing after a match.** The content cursor is updated as `lastIndex = regexp.lastIndex || match.index + match[0].length`. After an empty match the engine's own `lastIndex` moves one further. A regular expression without the global flag stops after its first match.
- **A missing template name.** A template without a name (absent or empty) is added with a null source, `None` in the model.

## Model

| member | source | states |
|---|---|---|
| SourceNodes.SourceNode.constructor | lib/regexp-sourcemaps.ts:94 | `new SourceNode()` holds no fragment and no registered source |
| SourceNodes.SourceNode.Code | lib/regexp-sourcemaps.ts:170 | the code of `toStringWithSourceMap` holds each fragment's text at the offset where the texts of the fragments before it end, and ends with the last fragment's text; it is empty for a node without fragments |
| SourceNodes.SourceNode.Add | lib/regexp-sourcemaps.ts:59 | `node.add` appends the child's fragments after the existing ones; the registered sources do not change |
| SourceNodes.SourceNode.SetSourceContent | lib/regexp-sourcemaps.ts:132-136 | registering a source updates that name's content (a later registration of the same name wins); no fragment changes |
| PositionTracking.Split | lib/regexp-sourcemaps.ts:26 | `content.split(/\n/)` always has at least one line |
| PositionTracking.SplitJoin | lib/regexp-sourcemaps.ts:26 | splitting loses nothing: joining the lines with line breaks gives the text back |
| PositionTracking.SplitLines | lib/regexp-sourcemaps.ts:26 | no line of the split holds a line break |
| PositionTracking.SplitCounts | lib/regexp-sourcemaps.ts:34-35 | the split has one more line than the text has line breaks, and its last line is as long as the text after the last line break |
| PositionTracking.LineBreaksCount | lib/regexp-sourcemaps.ts:34 | the line count that `forward` adds is the number of `\n` characters in the text |
| PositionTracking.ForwardedArithmetic | lib/regexp-sourcemaps.ts:28-36 | `forward`'s two branches (column += length without a line break; else line += breaks and column = length of the last line) agree with moving the cursor one character at a time |
| PositionTracking.ForwardedConcat | lib/regexp-sourcemaps.ts:24-39 | forwarding over `a` and then over `b` is forwarding over `a + b` |
| PositionTracking.ForwardedNoNewline | lib/regexp-sourcemaps.ts:28-31 | without a line break only the column moves, by the text's length; empty text moves nothing |
| PositionTracking.ForwardedLastNewline | lib/regexp-sourcemaps.ts:32-36 | with line breaks the line grows by their number and the column becomes the length of the text after the last one |
| PositionTracking.ForwardedOverLine | lib/regexp-sourcemaps.ts:58-60 | after a segment that ends in its only line break, the cursor is at column 0 of the next line |
| PositionTracking.NewlineAt | lib/regexp-sourcemaps.ts:6 | `lineMatcher` searching from `from` finds an index within the text at or after `from` |
| PositionTracking.NewlineAtLeftmost | lib/regexp-sourcemaps.ts:6 | the index found holds `\n` and no `\n` comes before it from `from`; finding none means there is no `\n` from `from` on |
| PositionTracking.NextNewline | lib/regexp-sourcemaps.ts:56 | the scan of `lineMatcher.exec` returns exactly the leftmost line break from `from` |
| PositionTracking.SegmentsTile | lib/regexp-sourcemaps.ts:55-69 | the segments `add` maps (each up to and including a line break, then the rest) tile the text exactly; there are none only for empty text |
| PositionTracking.SegmentsShape | lib/regexp-sourcemaps.ts:55-69 | each segment is non-empty and holds a line break at most at its end; every segment but the last ends in a line break |
| PositionTracking.EmitTexts | lib/regexp-sourcemaps.ts:48-72 | the fragments of `add` spell out exactly the content, and empty content adds nothing |
| PositionTracking.EmitShape | lib/regexp-sourcemaps.ts:55-69 | every fragment of `add` is from the cursor's file and is a line segment; every one but the last ends in a line break |
| PositionTracking.EmitLayout | lib/regexp-sourcemaps.ts:55-69 | the first fragment is at the cursor, and each later one is at column 0 of the line after the previous one |
| PositionTracking.EmitOneLine | lib/regexp-sourcemaps.ts:64-69 | non-empty text without a line break is one fragment at the cursor |
| PositionTracking.EmitAt | lib/regexp-sourcemaps.ts:59-60 | fragment k stands where the cursor is after the texts of fragments 0..k-1 |
| PositionTracking.EmitSlices | lib/regexp-sourcemaps.ts:58 | fragment k's text is the slice of the content that follows the texts of the fragments before it |
| PositionTracking.EmitFromStep | lib/regexp-sourcemaps.ts:58-61 | one turn of `add`'s loop: the fragment for the next segment at the cursor, then the rest emitted from after the segment |
| PositionTracking.ForwardedBounds | lib/regexp-sourcemaps.ts:14-39 | a cursor that starts at line >= 1 and column >= 0, as the defaults (1, 0) do, keeps column >= 0 and never moves to an earlier line |
| PositionTracking.EmitBounds | lib/regexp-sourcemaps.ts:48-72 | from such a cursor, every fragment of `add` is at line >= 1 and column >= 0 |
| PositionTracking.Position.constructor | lib/regexp-sourcemaps.ts:14 | a cursor at (file, line, column), by default line 1, column 0 |
| PositionTracking.Position.Forward | lib/regexp-sourcemaps.ts:24-39 | counting the lines and the last line's length, `forward` moves the cursor to `Forwarded(old cursor, content)`; the file is unchanged |
| PositionTracking.Position.Add | lib/regexp-sourcemaps.ts:48-72 | the node gains exactly `Emit(file, cursor, content)`; with `autoForward` the cursor ends after the content, without it the cursor does not move |
| PositionTracking.Position.AddLines | lib/regexp-sourcemaps.ts:55-69 | the loop of `add` and its tail append `Emit` of the content and move the cursor over all of it |
| PositionTracking.Position.AddSegment | lib/regexp-sourcemaps.ts:58-61 | one segment is added at the cursor and the cursor moves over it, keeping the loop's invariant |
| Templates.DigitRun | lib/regexp-sourcemaps.ts:7 | `\d+` is greedy: the run is within the text, all digits, and followed by a non-digit or the end |
| Templates.TokenAt | lib/regexp-sourcemaps.ts:7 | a reference found at `i` starts there, ends within the text, and names a non-empty string of digits |
| Templates.TokenText | lib/regexp-sourcemaps.ts:7 | a reference is written `$` then its key, or `${`, its key and `}` |
| Templates.TokenGreedy | lib/regexp-sourcemaps.ts:7 | `$` followed by a digit always starts a reference, whose key is every digit that follows |
| Templates.BracedToken | lib/regexp-sourcemaps.ts:7 | `${`, a non-empty run of digits and `}` is always a reference spanning all of it, whose key is those digits |
| Templates.UnclosedBrace | lib/regexp-sourcemaps.ts:7 | a `${` whose digits are missing (`${}`), run to the end of the text, or are not followed by `}` (`${1a}`) is literal text |
| Templates.NotAToken | lib/regexp-sourcemaps.ts:7 | `$` followed by neither a digit nor `{` is literal text |
| Templates.FirstToken | lib/regexp-sourcemaps.ts:99 | `varMatcher.exec` from `from` returns the leftmost reference at or after `from`, and none starts before it |
| Templates.NextToken | lib/regexp-sourcemaps.ts:99 | the scan of `varMatcher.exec` returns exactly `FirstToken` |
| Templates.Parts | lib/regexp-sourcemaps.ts:98-113 | reading the template yields references whose keys are non-empty digit strings |
| Templates.PartsRender | lib/regexp-sourcemaps.ts:98-113 | reading the template into literals and references loses nothing: rendering them gives the template back |
| Templates.PartsStep | lib/regexp-sourcemaps.ts:99-105 | the parts from `from` are the literal before the next reference (when not empty), the reference, then the parts after it |
| Templates.PartsLiterals | lib/regexp-sourcemaps.ts:102-105 | every literal part is non-empty, because an empty gap before a reference or at the end is skipped |
| Templates.PartsNoDollar | lib/regexp-sourcemaps.ts:110-113 | a template without `$` is one literal, or none when it is empty |
| Templates.Group | lib/regexp-sourcemaps.ts:101 | `match[key]` is defined only for a key that is the canonical decimal form of its value, and that value is at most the number of groups |
| Templates.GroupIsArrayIndex | lib/regexp-sourcemaps.ts:101 | `match[key]` follows JavaScript's array-index rule on `[match[0], group 1, group 2, ...]`: it is element v exactly when the key is the canonical decimal form of v and v is inside the array; it is undefined otherwise, for example for `01` or past the last group |
| Templates.DecimalValueString | lib/regexp-sourcemaps.ts:101 | reading the canonical decimal form of n gives n back |
| Templates.DecimalStringShape | lib/regexp-sourcemaps.ts:101 | the canonical decimal form is a non-empty digit string that starts with `0` only for zero |
| Templates.CanonicalRoundTrip | lib/regexp-sourcemaps.ts:101 | a digit string without a leading zero, or `0` itself, is the canonical decimal form of its value |
| Replacing.ExpandOutcome | lib/regexp-sourcemaps.ts:92-116 | filling in the template succeeds exactly when every reference's group is defined, and its text is then the template with each reference replaced; on failure some reference names an undefined group and the error carries its key |
| Replacing.ExpandAppend | lib/regexp-sourcemaps.ts:102-108 | after a resolved prefix of the template, the template cursor has moved over that prefix's literal text only |
| Replacing.ExpandBounds | lib/regexp-sourcemaps.ts:92-116 | with the template cursor and the anchor at line >= 1 and column >= 0, every fragment of a filled-in template is too |
| Replacing.ExpandLiteral | lib/regexp-sourcemaps.ts:102-105 | a literal is added at the template cursor, which then moves over it; an empty literal adds nothing |
| Replacing.ExpandReference | lib/regexp-sourcemaps.ts:101-107 | a reference adds its group's value at the anchor without moving the template cursor, or fails with `MissingGroup(key)` |
| Replacing.ExpandStep | lib/regexp-sourcemaps.ts:99-109 | one turn of `createReplaceNode`'s loop: the literal before the next reference, then the group's value, or failure |
| Replacing.ExpandTail | lib/regexp-sourcemaps.ts:110-113 | after the last reference, the rest of the template goes at the template cursor |
| Replacing.Matches | lib/regexp-sourcemaps.ts:138-162 | a regular expression without the global flag yields at most one match |
| Replacing.MatchesFit | lib/regexp-sourcemaps.ts:138-162 | the matches `replace` visits lie in the content in order, each starting no earlier than the end of the one before |
| Replacing.AssembleOutcome | lib/regexp-sourcemaps.ts:138-167 | the output is built exactly when every match resolves every reference, and its text is then the content with each match replaced by its filled-in template |
| Replacing.SpliceIdentity | lib/regexp-sourcemaps.ts:138-167 | the gaps and the matched texts tile the content: with every match replaced by its own text (`$0`) the result is the content, so no content character is dropped or repeated |
| Replacing.AssembleBounds | lib/regexp-sourcemaps.ts:126-167 | every fragment of the assembled output is at line >= 1 and column >= 0 |
| Replacing.AssembleStep | lib/regexp-sourcemaps.ts:140-146 | one match: the unmatched text before it at its own place, then the filled-in template, or failure |
| Replacing.ProgressStep | lib/regexp-sourcemaps.ts:139-161 | the match the engine finds next lies after the last one; the loop either fails as the whole does or goes on with the engine's search index at the end of the match, one further after an empty match |
| Replacing.ProgressDone | lib/regexp-sourcemaps.ts:139 | when the engine finds nothing, no match is left |
| Replacing.ReplaceOutcome | lib/regexp-sourcemaps.ts:124-173 | `replace` succeeds exactly when every match resolves every reference; its code is then the content with each match replaced, and both the content and the named template are registered as sources |
| Replacing.ReplaceBounds | lib/regexp-sourcemaps.ts:124-172 | every mapping of a successful `replace` points at line >= 1 and column >= 0 of the content or the template |
| Replacing.ReplaceIdentity | lib/regexp-sourcemaps.ts:124-173 | `replace` with the template `$0` succeeds and gives the content back, whatever the regular expression matches |
| Replacing.ReplaceUnmatched | lib/regexp-sourcemaps.ts:164-167 | without a match the code is the content itself, mapped line segment by line segment to its own places |
| Replacing.EmitInPlace | lib/regexp-sourcemaps.ts:140-143 | each fragment of unmatched text is a slice of the content and stands at the cursor of the content where that slice starts |
| Replacing.Replacer.constructor | lib/regexp-sourcemaps.ts:80-83 | the template's source name is `regexp/<name>`, or none when the name is absent or empty |
| Replacing.Replacer.CreateReplaceNode | lib/regexp-sourcemaps.ts:92-116 | the loop over `varMatcher` returns exactly `ExpandParts` of the template's parts: literals at the template cursor from (1, 0), values at the cursor of `pos`, which does not move |
| Replacing.Replacer.AddReference | lib/regexp-sourcemaps.ts:102-107 | the literal before a reference is added at the template cursor, which moves over it, then the value at `pos`, which stays put; the registered sources do not change |
| Replacing.Replacer.Replace | lib/regexp-sourcemaps.ts:124-173 | `replace` returns exactly `ReplaceSpec`: the assembled fragments, their text as the code, and the registered sources, or the error of the first undefined reference |
| Replacing.Replacer.AddMatches | lib/regexp-sourcemaps.ts:138-162 | the loop over the matches either fails as the whole output does or leaves the cursor where the rest of the content starts, with the fragments added so far followed by the rest forming the whole output |
| Replacing.Replacer.AddMatch | lib/regexp-sourcemaps.ts:140-146 | one match: the unmatched text since the last match at its own place, then the filled-in template, after which the cursor stands after the match |
| Demo.DemoParts | test/demo.ts:7 | `my $1 result` reads as the literal `my `, the reference to group 1, and the literal ` result` |
| Demo.DemoExpand | test/demo.ts:7-9 | the template filled in for the match gives `my ` at (1, 0) of the template, `super` at (1, 0) of the file, and ` result` at (1, 3) of the template |
| Demo.DemoAssemble | test/demo.ts:7-9 | no unmatched text comes before or after the match, so the output is the filled-in template alone |
| Demo.DemoReplace | test/demo.ts:7-9 | `replace` on the demo gives the code `my super result`, its three fragments, and the content and template as sources |
| Demo.Run | test/demo.ts:7-9 | constructing the demo's replacer and calling `replace` succeeds with the code `my super result` |

## Left out

- The `source-map` library is not part of this model. `SourceNode`'s tree is flattened into a sequence of fragments. `toStringWithSourceMap` is modelled as a `Generated` value holding the code, the fragments and the source contents. The VLQ/JSON encoding of the map is not modelled.
- The regular-expression engine is a parameter. `Regex` holds the `global` flag and an `exec(content, from)` function. `ExecSound` is all that is assumed of it: a match found from `from` starts no earlier than `from` and its text is in the content there. The `sticky` and `unicode` flags, and any other engine semantics, are not modelled.
- The `lastIndex` properties of the module-level `lineMatcher` and `varMatcher`, and of the replacer's regular expression, are modelled as local indices. This is sound for two reasons. Each loop resets its own index to 0 before it starts. The one other use of `lineMatcher` inside its loop, the `content.split(lineMatcher)` in `forward` (reached from `add` at lib/regexp-sourcemaps.ts:60), works on a fresh splitter built from the expression, so it neither reads nor writes `lineMatcher.lastIndex`. The value left in the expression after `replace` returns is not modelled.
- The model counts characters, not UTF-16 code units, for string lengths and columns.
- Line and column numbers are unbounded integers, not JavaScript numbers.
- The `TypeError` that `add` throws on `undefined` is modelled as `Failure(MissingGroup(key))`. Its message, and the partly built node it discards, are not modelled.
- The unused `symbol.inspect` import is not modelled.
- `lib/regexp-sourcemaps.js` and `lib/regexp-sourcemaps.d.ts` are the compiled output and the type declarations of the same code, and are not part of this model.
- Replacing.Matches: its contract only bounds a non-global expression to one match. Where the matches lie is stated by `MatchesFit`, and what `replace` makes of them by `AssembleOutcome` and `ReplaceOutcome`.
