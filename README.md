# svg-code-studio core in Dafny

This project models the logic at the centre of svg-code-studio, a browser tool
that shows an uploaded or pasted SVG file as formatted, minified or
syntax-highlighted code. It also proves properties of that model.

The model covers four parts of the program:

- **The SVG service** (`src/services/svgService.ts`):
  - `formatSvgCode` re-indents the markup, one tag or text per line.
  - `minifySvgCode` removes line breaks and tabs, closes the whitespace between adjacent tags, collapses the remaining whitespace runs to one space and trims the ends.
  - `highlightSvgSyntax` escapes the markup for HTML and wraps comments, attribute values, attribute names and tag names in `<span class="syntax-…">` markers.
  - `getSvgMetadata` reads the root's size attributes, counts the elements and flags animations, filters and gradients.
  - `validateSvg` decides whether a text is an SVG document.
- **The file-intake rules** (`src/utils/fileUtils.ts`):
  - `validateFile` checks presence, then type, then the 5 MB size limit.
  - `getFileExtension` and `getFileNameWithoutExtension` take a file name apart.
- **The processor state** (`src/hooks/useSvgProcessor.ts`). The record `{currentFile, svgCode, isProcessing}` is a class whose three operations keep one invariant: the held code is either empty or code that passed validation.
- **The keyboard-shortcut rule** (`src/hooks/useKeyboardShortcuts.ts`). A key event fires the first matching shortcut, after preventing the browser's default action.

Modules:

| module | file | what it holds |
|---|---|---|
| `Types` | `types.dfy` | `Option`, `ValidationResult`, `FileInfo` |
| `Text` | `text.dfy` | JavaScript's `\s`, `trim`, ASCII `toLowerCase`, `startsWith`/`endsWith`, `lastIndexOf`, `repeat`, `join` |
| `Rewrite` | `rewrite.dfy` | `String.prototype.replace` with a global pattern: leftmost match, resume after it, copy the rest |
| `SvgFormat` | `svg_format.dfy` | `formatSvgCode` as a loop method, plus the layout function it is proved against |
| `SvgMinify` | `svg_minify.dfy` | `minifySvgCode` as its five passes |
| `SvgEscape` | `svg_escape.dfy` | the three escape passes, and the entity decoder they are proved to be inverted by |
| `SvgHighlight` | `svg_highlight.dfy` | the four wrapping passes of `highlightSvgSyntax` |
| `SvgMetadata` | `svg_metadata.dfy` | `getSvgMetadata` as a counting loop; `validateSvg` over the parser's result |
| `FileUtils` | `file_utils.dfy` | `validateFile`, `getFileExtension`, `getFileNameWithoutExtension` and their constants |
| `SvgProcessor` | `svg_processor.dfy` | class `Processor` with the three state fields and their operations |
| `KeyboardShortcuts` | `keyboard_shortcuts.dfy` | `handleKeyDown` as a loop method that returns the fired index and an effect log |

How the host and the regular expressions are treated:

- Each regular expression used with a global `replace` becomes a matcher: a function that says whether the pattern matches at the start of a text, how much it takes and what it puts in its place. `Rewrite.ReplaceAll` applies a matcher the way a global `replace` does.
- Two regular expressions are not used that way, so they do not go through `ReplaceAll`:
  - The split pattern `/(<[^>]+>)/` of `formatSvgCode` is `SvgFormat.TagAt`, which gives only where a match ends. `SvgFormat.Split` cuts the text there.
  - The non-global `/\.[^/.]+$/` of `getFileNameWithoutExtension` is the predicate `FileUtils.ExtensionAt`, saying where the pattern matches. The operation itself is the closed form `FileUtils.GetFileNameWithoutExtension`, proved against that predicate.
- The browser's `DOMParser` is an input:
  - `validateSvg` receives a `Document` holding the text of the parser's error element, if any, and the first `svg` element, if any.
  - `getSvgMetadata` receives that element, which holds its attributes and its descendants' tag names in document order.
  - The processor holds the parser as a function `parse: string -> Document`.
- `readFileAsText` is an input too: its outcome reaches `FinishProcessFile` as `Option<string>`.
- A shortcut's handler is code the model does not see, so running it is recorded as an effect.

## Model

| member | source | states |
|---|---|---|
| `Text.Lower` | src/utils/fileUtils.ts:89 | `toLowerCase` on ASCII letters, each character mapped on its own; `LowerIdempotent` states it is idempotent |
| `Text.LowerIdempotent` | src/utils/fileUtils.ts:89 | lower-casing twice gives the same as lower-casing once |
| `Text.Spaces` | src/services/svgService.ts:30 | `' '.repeat(n)` is `n` characters, all spaces |
| `Text.Join` | src/services/svgService.ts:47 | `lines.join('\n')`: the parts with the separator between each two |
| `Text.Trim` | src/services/svgService.ts:13 | `trim` gives a text that neither begins nor ends with whitespace (the JavaScript `\s` set) |
| `Text.TrimSplits` | src/services/svgService.ts:13 | the input is a run of whitespace, then the trimmed text, then another run of whitespace |
| `Text.TrimOfTrimmed` | src/services/svgService.ts:60 | trimming a text with no surrounding whitespace changes nothing |
| `Text.LastIndexOf` | src/utils/fileUtils.ts:89 | `lastIndexOf` gives the last index holding the character, or -1 when there is none |
| `Text.IndexFrom` | src/services/svgService.ts:155 | the first index at or after a start that holds the character, or the length when there is none |
| `Rewrite.ReplaceAll` | src/services/svgService.ts:54-59 | a global `replace`: the leftmost match is replaced, the scan resumes after it, and unmatched characters are copied; its properties are `CopyUnmatched`, `NoMatchUnchanged`, `ReplaceAllShrinks` and `ReplaceAllKeeps` |
| `Rewrite.CopyUnmatched` | src/services/svgService.ts:54-59 | a global replace copies every character at which the pattern does not match |
| `Rewrite.NoMatchUnchanged` | src/services/svgService.ts:54-59 | a global replace whose pattern matches nowhere leaves the text as it is |
| `Rewrite.ReplaceAllShrinks` | src/services/svgService.ts:54-59 | replacements never longer than their matches never lengthen the text |
| `Rewrite.ReplaceAllKeeps` | src/services/svgService.ts:54-59 | a character property shared by the input and every replacement holds of the output |
| `Rewrite.CharRuleSubstitutes` | src/services/svgService.ts:55-57 | replacing a one-character pattern globally is substituting that character everywhere |
| `Rewrite.SubstituteChars` | src/services/svgService.ts:55-57 | after a substitution, each character came from the input and is not the one replaced, or came from the replacement |
| `SvgFormat.CrLfRule` | src/services/svgService.ts:13 | `/\r\n/g` → `\n`: a CR followed by an LF becomes one LF |
| `SvgFormat.Normalize` | src/services/svgService.ts:13 | `trim()` then `/\r\n/g` → `\n`; `TokensReassemble` states that the tokens rebuild it |
| `SvgFormat.TagAt` | src/services/svgService.ts:21 | where a match of `<[^>]+>` starting at a position ends: at least three characters on; `TagAtIsTag` states that the match is a whole tag |
| `SvgFormat.Split` | src/services/svgService.ts:21 | the text before each leftmost tag match, the match, and the text after the last one, with empty pieces left out; `SplitReassembles`, `SplitPieces` and `SplitCuts` state its properties |
| `SvgFormat.Tokens` | src/services/svgService.ts:21 | `split(/(<[^>]+>)/g).filter(Boolean)`; `TokensReassemble` states its properties |
| `SvgFormat.SplitReassembles` | src/services/svgService.ts:21 | the split pieces are never empty and concatenate back to the text; where the cuts fall is `SplitCuts` |
| `SvgFormat.TagAtIsTag` | src/services/svgService.ts:21 | a match found at a position is a whole tag, `<`, at least one character that is not `>`, then `>` |
| `SvgFormat.TagInSlice` | src/services/svgService.ts:21 | a tag match inside a slice of the text is also a match in the whole text |
| `SvgFormat.TagFreeSlice` | src/services/svgService.ts:21 | a slice of the text where no match starts has no match of its own |
| `SvgFormat.SplitPieces` | src/services/svgService.ts:20-21 | every piece, taken by itself, is a whole tag or text in which no tag starts |
| `SvgFormat.TagMatchesItself` | src/services/svgService.ts:21 | a whole tag is the match that starts at its own first character |
| `SvgFormat.TagFreeNotTag` | src/services/svgService.ts:21 | no text is both a whole tag and free of tags |
| `SvgFormat.TextPiece` | src/services/svgService.ts:21 | a stretch of the text where no match starts is a text piece at its offset |
| `SvgFormat.CutCons` | src/services/svgService.ts:21 | a piece at its offset in front of a list cut at the tags, with a tag on one side of the join, extends the cut |
| `SvgFormat.CutAtMatch` | src/services/svgService.ts:21 | the text before a leftmost match, the match and a cut rest together cut the text at the tags |
| `SvgFormat.SplitCuts` | src/services/svgService.ts:20-21 | the text is cut exactly at the tags. Each piece lies at the offset the pieces before it reach. A tag piece is the match of `<[^>]+>` that starts at that offset. No match starts inside a text piece. No two text pieces are adjacent |
| `SvgFormat.TokensReassemble` | src/services/svgService.ts:13-21 | the tokens concatenate back to the trimmed, CRLF-to-LF input; none is empty; each is a whole tag or text with no tag in it; and they cut the text exactly at the tags, as `SplitCuts` states |
| `SvgFormat.TrimPiece` | src/services/svgService.ts:24 | trimming leaves a whole tag as it is and keeps a tag-free text free of tags |
| `SvgFormat.LinesAreTagsOrText` | src/services/svgService.ts:20-25 | every tag token is the whole text of a line; every line that is a whole tag is one of the tag tokens; every other line holds no tag. With `TokensReassemble`, each tag matched in the text gets a line of its own |
| `SvgFormat.KindOf` | src/services/svgService.ts:27-44 | which branch of the loop body a trimmed token takes, tested in the source's order; `IndentStep` states the policy with the source's own tests |
| `SvgFormat.Place` | src/services/svgService.ts:27-44 | one step of the loop body on a non-blank trimmed token; `IndentStep` and `LayOutShape` state its effect |
| `SvgFormat.LayOut` | src/services/svgService.ts:23-45 | the loop's state after a list of texts: the fold of `Place` over the texts from a counter of 0, which `FormatSvgCode` is proved against; `LayOutShape`, `LayOutExtends`, `IndentTracksDepth` and `MatchingTagsAligned` state its properties |
| `SvgFormat.FormatSvgCode` | src/services/svgService.ts:11-48 | the loop's output is the layout of the trimmed non-blank tokens, joined by newlines |
| `SvgFormat.LayOutSnoc` | src/services/svgService.ts:23-45 | laying out one more text places it after the layout of the texts before it |
| `SvgFormat.LayOutShape` | src/services/svgService.ts:23-47 | one line per text, in order; each line is as many spaces as its level followed by the text; every level and the counter are even |
| `SvgFormat.StepEven` | src/services/svgService.ts:16-44 | an even indentation counter stays even through each branch (indent size 2, floor 0) |
| `SvgFormat.NonEmptyKeeps` | src/services/svgService.ts:24-25 | blank tokens are skipped: a text is laid out iff it is a non-empty trimmed token |
| `SvgFormat.NonEmptyTrimmed` | src/services/svgService.ts:24-25 | every laid-out text is non-empty and has no surrounding whitespace |
| `SvgFormat.NonEmptyAppend` | src/services/svgService.ts:23-25 | skipping blanks works piece by piece over a concatenation |
| `SvgFormat.IndentStep` | src/services/svgService.ts:27-44 | `</` lowers the counter by 2 (floored at 0) before its line; another `<` token not ending `/>` and not starting `<?` or `<!` is emitted at the counter, which then rises by 2; self-closing tags, declarations, comments and text leave it unchanged |
| `SvgFormat.LayOutExtends` | src/services/svgService.ts:23-45 | placing more texts never changes the lines and levels already placed |
| `SvgFormat.IndentTracksDepth` | src/services/svgService.ts:27-40 | over texts that never close more tags than they opened, the counter moves by 2 per level of nesting |
| `SvgFormat.MatchingTagsAligned` | src/services/svgService.ts:27-40 | in properly nested input an opening tag and its closing tag get the same indentation |
| `SvgMinify.TagGapRule` | src/services/svgService.ts:58 | `/>\s+</g` → `><`: a `>`, the whole whitespace run after it, and a `<`; `GapsClosed` states its effect |
| `SvgMinify.SpaceRunRule` | src/services/svgService.ts:59 | `/\s{2,}/g` → a space: a whitespace run of two or more; `RunsCollapsed` states its effect |
| `SvgMinify.StripBreaks` | src/services/svgService.ts:55-57 | the `\n`, `\r` and `\t` passes, in order; `StripBreaksResult` states their effect |
| `SvgMinify.Minify` | src/services/svgService.ts:53-61 | the five passes and `trim`, in the source's order; `MinifyResult`, `MinifyFixes` and `MinifyIdempotent` state its properties |
| `SvgMinify.StripBreaksResult` | src/services/svgService.ts:55-57 | after the `\n`, `\r` and `\t` passes none of the three is left, and the text is no longer |
| `SvgMinify.GapsClosed` | src/services/svgService.ts:58 | after `>\s+<` becomes `><`, no `>` is followed by whitespace and then `<` |
| `SvgMinify.RunsCollapsed` | src/services/svgService.ts:59 | after `\s{2,}` becomes a space, no two whitespace characters are adjacent |
| `SvgMinify.RunsKeepNoTagGap` | src/services/svgService.ts:58-59 | collapsing whitespace runs opens no new `>`-whitespace-`<` gap |
| `SvgMinify.TrimKeeps` | src/services/svgService.ts:60 | the final `trim` keeps the properties of the earlier passes |
| `SvgMinify.MinifyResult` | src/services/svgService.ts:53-61 | the result has no `\n`, `\r` or `\t`, no adjacent whitespace, no `>`-whitespace-`<`, no surrounding whitespace, and is never longer than the input |
| `SvgMinify.MinifyFixes` | src/services/svgService.ts:53-61 | a text with all those properties is its own minification |
| `SvgMinify.MinifyIdempotent` | src/services/svgService.ts:53-61 | minifying twice gives the same as minifying once |
| `SvgEscape.Escape` | src/services/svgService.ts:149-151 | the `&`, `<` and `>` passes, `&` first; `EscapeIsEscapeEach`, `UnescapeEscape` and `EscapedNoAngles` state its properties |
| `SvgEscape.EscapeIsEscapeEach` | src/services/svgService.ts:149-151 | the three passes, `&` first, replace each character by its entity independently |
| `SvgEscape.UnescapeEscape` | src/services/svgService.ts:149-151 | decoding `&amp;`, `&lt;` and `&gt;` recovers the input exactly |
| `SvgEscape.EscapedNoAngles` | src/services/svgService.ts:149-151 | no raw `<` or `>` is left after escaping |
| `SvgHighlight.CommentMatch` | src/services/svgService.ts:153 | `/(&lt;!--[\s\S]*?--&gt;)/g`: an escaped comment up to the first escaped `-->`, wrapped as `syntax-comment`; `CommentMarked` and `FindFrom` state its properties |
| `SvgHighlight.ValueMatch` | src/services/svgService.ts:155 | `/="([^"]*)"/g`: `="`, the text up to the next `"`, wrapped as `syntax-value`; `ValueMarked` states its property |
| `SvgHighlight.AttrMatch` | src/services/svgService.ts:157 | `/\s([a-zA-Z-]+)=/g`: one whitespace character, a name and `=`, the name wrapped as `syntax-attr`; `AttrMarked` and `Run` state its properties |
| `SvgHighlight.TagMatch` | src/services/svgService.ts:159 | `/(&lt;\/?[a-zA-Z][a-zA-Z0-9]*)/g`: an escaped `<`, an optional `/`, a letter, then letters and digits, wrapped as `syntax-tag`; `TagMarked` and `TagOfName` state its properties |
| `SvgHighlight.Highlight` | src/services/svgService.ts:146-160 | escaping, then the comment, value, attribute-name and tag passes, in order; `HighlightMarked`, `HighlightIdentity`, `HighlightTag` and `HighlightExample` state its properties |
| `SvgHighlight.Run` | src/services/svgService.ts:157-159 | a greedy character class takes exactly the longest run of matching characters |
| `SvgHighlight.FindFrom` | src/services/svgService.ts:153 | the lazy `[\s\S]*?` stops at the first occurrence of `--&gt;` |
| `SvgHighlight.MarkedKept` | src/services/svgService.ts:153-159 | a pass whose replacements are well marked, and which never breaks the words of a marker, keeps every `<` a marker start |
| `SvgHighlight.CommentMarked` | src/services/svgService.ts:153 | the comment pass adds only whole markers |
| `SvgHighlight.ValueMarked` | src/services/svgService.ts:155 | the value pass adds only whole markers |
| `SvgHighlight.AttrMarked` | src/services/svgService.ts:157 | the attribute-name pass adds only whole markers |
| `SvgHighlight.TagMarked` | src/services/svgService.ts:159 | the tag pass adds only whole markers |
| `SvgHighlight.HighlightMarked` | src/services/svgService.ts:146-160 | every `<` in the output begins an inserted `<span ` or `</span>` |
| `SvgHighlight.HighlightIdentity` | src/services/svgService.ts:146-160 | text with no `&`, `<`, `>` or `=` comes back unchanged |
| `SvgHighlight.TagOfName` | src/services/svgService.ts:159 | the tag pass wraps `&lt;name` of an escaped tag and leaves its `&gt;` alone |
| `SvgHighlight.HighlightTag` | src/services/svgService.ts:146-160 | `<name>` for a plain alphanumeric name becomes the escaped `&lt;name` wrapped as a tag, followed by `&gt;` |
| `SvgHighlight.HighlightExample` | src/services/svgService.ts:146-160 | `<svg>` becomes `<span class="syntax-tag">&lt;svg</span>&gt;` |
| `SvgMetadata.GetAttribute` | src/services/svgService.ts:103-105 | an attribute's value is read verbatim, or `null` when it is absent |
| `SvgMetadata.HasAny` | src/services/svgService.ts:121-123 | a selector list of tag names finds something iff some descendant's case-sensitive name is in the list |
| `SvgMetadata.GetSvgMetadata` | src/services/svgService.ts:84-125 | no `svg` element gives the fixed record with error `Invalid SVG`. Otherwise there is no error and `viewBox`/`width`/`height` are the attributes. `totalElements` is the number of descendants. The counts are keyed by lower-cased names, each the number of descendants bearing it, and sum to the total. Each flag is true iff some descendant carries one of its names |
| `SvgMetadata.ElementCounts` | src/services/svgService.ts:109-113 | the dictionary the counting loop builds, one name at a time; `ElementCountsCount`, `ElementCountsLowered` and `ElementCountsTotal` state its properties |
| `SvgMetadata.ElementCountsCount` | src/services/svgService.ts:108-113 | the counting loop's dictionary has a key exactly for each lower-cased tag name, and its value is how many descendants bear it |
| `SvgMetadata.ElementCountsLowered` | src/services/svgService.ts:111-112 | every key of the dictionary is lower case |
| `SvgMetadata.ElementCountsTotal` | src/services/svgService.ts:108-119 | the counts add up to the number of descendants |
| `SvgMetadata.TotalRemove` | src/services/svgService.ts:112 | the sum of a dictionary's values loses exactly the value of a removed key |
| `SvgMetadata.ValidateSvg` | src/services/svgService.ts:165-186 | a parser error wins, with its text or `Invalid SVG format` when the text is empty; then a missing `svg` element gives `No SVG element found`; otherwise the result is valid with no error; valid iff no error |
| `SvgMetadata.ValidateSvgExplains` | src/services/svgService.ts:170-183 | a rejection's message is never empty |
| `FileUtils.Accepts` | src/utils/fileUtils.ts:17 | the `some` callback: the entry equals the MIME type or ends the lower-cased name |
| `FileUtils.TypeAccepted` | src/utils/fileUtils.ts:16-18 | the type is accepted iff some entry equals the MIME type or ends the lower-cased name |
| `FileUtils.ValidateFile` | src/utils/fileUtils.ts:11-29 | no file gives `noFile`; then a wrong type gives `invalidFile`; then a size over 5·1024·1024 gives `fileTooLarge`; valid iff present, accepted and within the limit; valid iff no error |
| `FileUtils.WrongTypeBeforeSize` | src/utils/fileUtils.ts:16-26 | a wrong-type file over the limit reports `invalidFile` |
| `FileUtils.SizeLimitInclusive` | src/utils/fileUtils.ts:24-28 | exactly 5 MB passes and one byte more gives `fileTooLarge` |
| `FileUtils.GetFileExtension` | src/utils/fileUtils.ts:88-90 | `slice(((lastIndexOf('.') - 1) >>> 0) + 2).toLowerCase()`, with the wrap-around of `>>> 0`; `ExtensionStart` and `ExtensionAfterLastDot` state what it gives |
| `FileUtils.ToUint32` | src/utils/fileUtils.ts:89 | `>>> 0` is congruent to its operand modulo 2^32 and lies in the unsigned 32-bit range |
| `FileUtils.SliceFrom` | src/utils/fileUtils.ts:89 | `slice(start)` is the suffix from `start`, or empty once `start` is at or past the end |
| `FileUtils.ExtensionStart` | src/utils/fileUtils.ts:89 | the slice starts just after the last dot when that dot is at index 1 or later, and past the end otherwise |
| `FileUtils.ExtensionAfterLastDot` | src/utils/fileUtils.ts:89 | the extension is the lower-cased text after the last dot; it is empty when there is no dot or the last dot is the first character |
| `FileUtils.ExtensionAt` | src/utils/fileUtils.ts:96 | `/\.[^/.]+$/` matches at a position: a dot there, then at least one character up to the end, none a `/` or a dot |
| `FileUtils.GetFileNameWithoutExtension` | src/utils/fileUtils.ts:95-97 | cuts the name at its last dot when text with no `/` follows it; `RemovesExtension`, `KeepsUnmatchedName` and `NameWithoutExtensionIsPrefix` state that this is `replace(/\.[^/.]+$/, '')` |
| `FileUtils.ExtensionAtLastDot` | src/utils/fileUtils.ts:96 | `/\.[^/.]+$/` can only match at the last dot, with no `/` after it |
| `FileUtils.CutIsExtension` | src/utils/fileUtils.ts:96 | when the name is cut, the pattern matches at the cut |
| `FileUtils.NameWithoutExtensionIsPrefix` | src/utils/fileUtils.ts:96 | the result is always a prefix of the name |
| `FileUtils.RemovesExtension` | src/utils/fileUtils.ts:96 | where the pattern matches, exactly the dot and what follows it are removed |
| `FileUtils.KeepsUnmatchedName` | src/utils/fileUtils.ts:96 | where the pattern matches nowhere, the name is unchanged |
| `SvgProcessor.Processor.Validates` | src/hooks/useSvgProcessor.ts:32-34 | `validateSvg(code).valid` over the parser the processor holds |
| `SvgProcessor.Processor.Initial` | src/hooks/useSvgProcessor.ts:18-22 | `initialState`: no file, empty code, not processing |
| `SvgProcessor.Processor.Valid` | src/hooks/useSvgProcessor.ts:32-43 | the state invariant: the held code is empty or passed `validateSvg`, and code is held only with a file; every operation's contract keeps it |
| `SvgProcessor.Processor.constructor` | src/hooks/useSvgProcessor.ts:18-25 | the state starts as no file, empty code, not processing, and satisfies the invariant |
| `SvgProcessor.Processor.BeginProcessFile` | src/hooks/useSvgProcessor.ts:28 | before reading, only `isProcessing` changes, to true |
| `SvgProcessor.Processor.FinishProcessFile` | src/hooks/useSvgProcessor.ts:30-49 | returns true iff the read succeeded and the text validates. Then it stores the file's name and the text; otherwise file and code are unchanged. Processing always ends, and the invariant is kept |
| `SvgProcessor.Processor.ProcessPastedCode` | src/hooks/useSvgProcessor.ts:52-66 | invalid code returns false and changes nothing; valid code returns true and sets `pasted.svg`, the code and not processing; the invariant is kept |
| `SvgProcessor.Processor.Clear` | src/hooks/useSvgProcessor.ts:68-70 | the state returns to the initial one |
| `KeyboardShortcuts.Matches` | src/hooks/useKeyboardShortcuts.ts:21-27 | the test of one shortcut against one event; `KeyCaseInsensitive`, `ShortcutCaseInsensitive`, `CtrlOrMeta`, `NoModifiersAnyHeld` and `ExtraModifiersHarmless` state its properties |
| `KeyboardShortcuts.HandleKeyDown` | src/hooks/useKeyboardShortcuts.ts:19-34 | no handler runs iff no shortcut matches. Otherwise the one that runs is the first match in list order. The effects are `preventDefault` then that one handler, or none |
| `KeyboardShortcuts.KeyCaseInsensitive` | src/hooks/useKeyboardShortcuts.ts:25 | an event matches iff the same event with its key lower-cased does |
| `KeyboardShortcuts.ShortcutCaseInsensitive` | src/hooks/useKeyboardShortcuts.ts:25 | a shortcut matches the same events whatever the case of its key |
| `KeyboardShortcuts.CtrlOrMeta` | src/hooks/useKeyboardShortcuts.ts:21-26 | a shortcut asking for Ctrl or Meta matches iff either one is held |
| `KeyboardShortcuts.NoModifiersAnyHeld` | src/hooks/useKeyboardShortcuts.ts:21-27 | a shortcut without modifiers matches its key whatever is held |
| `KeyboardShortcuts.ExtraModifiersHarmless` | src/hooks/useKeyboardShortcuts.ts:21-27 | holding extra Ctrl, Meta or Shift never stops a match |

## Left out

- `DOMParser`, `querySelector` and `querySelectorAll`: a foreign XML parser and selector engine. Their results are inputs; which element the parser reports as the first `svg` is not modelled.
- `extractSvgAttributes` (src/services/svgService.ts:66-79): it only copies the attributes the parser reports.
- `svgToDataUrl` and `svgToBase64`: these only call the host's `encodeURIComponent`, `unescape` and `btoa`.
- `readFileAsText`, `readFileAsDataURL`, `downloadFile`, the clipboard and the DOM helpers: host I/O, through `FileReader`, `Blob` and the clipboard. Only the outcome of `readFileAsText` enters the model, as a parameter.
- `debounce`: timer-based.
- Registering the keyboard listener, and the drag-and-drop plumbing: UI events. The only decision the drop zone makes is `validateFile`, which is modelled.
- The React components, `main.tsx`, the index files and the build configuration: rendering only.
- Text.Lower: lower-cases ASCII letters only. `toLowerCase` also maps other Unicode letters.
- Text.IsSpace: the whitespace set is written out as the ECMAScript WhiteSpace and LineTerminator code points.
- Character positions: strings are sequences of characters. JavaScript measures positions in UTF-16 code units, so characters outside the Basic Multilingual Plane are not modelled.
- SvgFormat.Tokens: `split(/(<[^>]+>)/g).filter(Boolean)` is one function that emits only the non-empty pieces; the empty strings the split yields between adjacent tags are never produced.
- SvgHighlight.HighlightMarked: the highlighter's output is not proved to be well-formed markup. It is not: the value pass wraps the `="syntax-comment"` that the comment pass inserted, and the attribute pass re-matches ` class=` inside every inserted span. What is proved is the weaker property that every `<` begins a marker.
- FileUtils.ExtensionAfterLastDot: requires names of at most 2^32 characters. For longer names the wrapped start index of `>>> 0` no longer lies past the end. ECMAScript allows strings of up to 2^53 − 1 code units, so such names are legal in the language; only today's engines cap string length far below 2^32.
- FileUtils.ExtensionStart: carries the same bound of 2^32 characters, for the same reason.
- SvgMetadata.GetSvgMetadata: `elementCounts` is a real dictionary here. The source uses a plain object, so a tag named `constructor` or `__proto__` would meet an inherited property instead of a missing key.
- SvgProcessor.Processor.FinishProcessFile: `processFile` awaits the read, so it is split at that point into `BeginProcessFile` and `FinishProcessFile`. Interleaving two concurrent calls, and React's batching of `setState`, are not modelled.
- KeyboardShortcuts.HandleKeyDown: what a handler does is not modelled; running it is logged as an effect, and the rule assumes the handler does not change the shortcut list while the loop runs.
