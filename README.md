# render-diff-react: a verified model of the patch parser, the split aligner and the inline differ

render-diff-react draws a unified git patch as a two-column, GitHub-style diff. Its core has
three parts:

- the **patch parser** (`parseDiff`) cuts the patch text into file sections. For each section it
  reads the file name, classifies every line after the first hunk header as an addition,
  deletion, context line or hunk header, and numbers the lines on the old and the new side.
- the **split aligner** (`generateSplitLines`) lays those lines out in rows. A run of deletions
  and the run of additions right after it are paired row by row. Context and hunk lines stand on
  both sides.
- the **inline differ** (`diffWordsWithSpace`, `diffCharacters`) computes the intra-line changes
  for each deleted/added pair.

Two smaller pieces are modelled too. `flattenHast` turns a highlighter's syntax tree into
classed text runs, and `cn` joins class names.

The model follows the code as written, quirks included:

- The inline diff compares tokens and characters **position by position**, with no
  longest-common-subsequence search. Two differing characters at one index become a removed
  span followed by an added span, so `"cat"` against `"car"` yields `ca`, `-t`, `+r`.
- The file name is the text after the **first** `b/` in the section's first line. So
  `a/lib/x.ts b/lib/x.ts` is named `x.ts b/lib/x.ts`.
- A section that ends in a newline gains an empty context line, because splitting on `\n`
  leaves an empty last piece.
- A line such as `\ No newline at end of file` inside a hunk counts as context.
- The regular expressions are written out as hand-made matchers:
  - `/b\/(.*)/`;
  - `/@@ -(\d+)(?:,\d+)? \+(\d+)(?:,\d+)? @@/`;
  - `split(/(\s+)/)`.
  The whitespace class is the exact ECMAScript set shared by `\s` and `trim()`.

Modules:

- `Wrappers` holds `Option`.
- `Strings` holds the JavaScript string built-ins the code calls: `startsWith`, `split`,
  `join` and `trim`. It also holds `IndexOf`, the leftmost search for a literal that `split`
  and the match of `/b\/(.*)/` perform, and `UntilLineEnd`, the text `.*` matches.
- `Types` holds the records of `types.ts`.
- `Utils` holds `cn`, `diffCharacters` and `diffWordsWithSpace`.
- `SplitAligner` holds `generateSplitLines`.
- `PatchParser` holds `parseDiff`.
- `Hast` holds `flattenHast`.

Each loop of the source is a method whose postcondition equates its result with a
specification function. The properties are proved about those functions:

- **Inline differ:** the round trips. Dropping the added spans gives the old line back, and
  dropping the removed spans gives the new line back.
- **Aligner:** the left column is the input without its additions, the right column is the input
  without its deletions, and every row has a well-formed shape.
- **Parser:** the line numbering, the counters and the file-name rules.

## Model

| member | source | states |
|---|---|---|
| Utils.Cn | src/utils.ts:1-3 | the class string is empty exactly when no argument is a non-empty string |
| Utils.CnSplit | src/utils.ts:1-3 | with at least one truthy argument and no spaces inside the arguments, splitting the result on spaces gives back exactly the truthy arguments, in order |
| Utils.Kept | src/utils.ts:2 | `filter(Boolean)` keeps only non-empty strings, and keeps none exactly when no argument is truthy |
| Utils.DiffCharacters | src/utils.ts:57-91 | the loop over indices up to the longer length produces `CharDiff`: one step per index, with equal characters merged into the previous unchanged span |
| Utils.CharDiffRoundTrip | src/utils.ts:57-91 | the character diff loses nothing: its non-added spans spell the old string and its non-removed spans spell the new string |
| Utils.CharDiffTidy | src/utils.ts:67-86 | no span of the character diff is empty and no two unchanged spans are adjacent, because matching characters extend the last unchanged span |
| Utils.CharDiffSame | src/utils.ts:63-78 | diffing a string against itself gives one unchanged span holding the whole string, or nothing for the empty string |
| Utils.CharDiffPrefixMerged | src/utils.ts:63-88 | extending the last unchanged span in place while the loop goes is the same as first listing each index's changes and then merging adjacent unchanged ones |
| Utils.TokenizeJoins | src/utils.ts:17-18 | the tokens of `split(/(\s+)/)` concatenate back to the string |
| Utils.TokenizeShape | src/utils.ts:17-18 | the tokens alternate between whitespace-free chunks and non-empty whitespace runs, starting and ending with a chunk that may be empty |
| Utils.TokenizeUnique | src/utils.ts:17-18 | any token list of that shape that concatenates to the string is the split itself |
| Utils.DiffWordsWithSpace | src/utils.ts:8-54 | the result is `WordDiff`, its non-added spans spell the old string and its non-removed spans the new one, and identical strings give one unchanged span |
| Utils.WalkTokens | src/utils.ts:20-51 | the token loop produces `Walk`: equal tokens stay unchanged, differing tokens at one position are character-diffed, and leftover tokens on one side go out whole as removed or added |
| Utils.WalkLockstep | src/utils.ts:23-51 | the loop advances both indices together while both lists have tokens: the walk is the per-position contributions for every position up to the longer list |
| Utils.WalkText | src/utils.ts:23-51 | the walk's non-added spans concatenate the old tokens and its non-removed spans the new tokens |
| Utils.WordDiffRoundTrip | src/utils.ts:8-54 | the word diff loses nothing: its non-added spans spell the old string and its non-removed spans the new string |
| SplitAligner.GenerateSplitLines | src/DiffViewer.tsx:110-142 | the loop produces `Align(lines)`, the row layout of the whole line list |
| SplitAligner.PairRuns | src/DiffViewer.tsx:118-135 | from a deletion at `i`, the loop resumes at the end of the addition run that follows the deletion run, the rows emitted are the paired block of those two runs, and they are the next rows of the layout |
| SplitAligner.PairBlock | src/DiffViewer.tsx:125-134 | pairing two runs gives one row per index up to the longer run: the deletion and the addition at that index, with an inline diff exactly when both exist |
| SplitAligner.RunEndKinds | src/DiffViewer.tsx:119-122 | the run scans stop at the first line of another kind |
| SplitAligner.AlignColumns | src/DiffViewer.tsx:110-142 | the left column, read top to bottom, is the input with its additions removed, and the right column is the input with its deletions removed; no line is lost, duplicated or reordered |
| SplitAligner.AlignRows | src/DiffViewer.tsx:110-142 | every row has a side; a deletion is only ever on the left and an addition only on the right; a context or hunk line on either side is on both sides without a diff; a diff is present exactly for a deletion paired with an addition and reproduces both contents |
| SplitAligner.AlignFromSnoc | src/DiffViewer.tsx:115-117 | appending a context or hunk line appends exactly one row holding it on both sides |
| PatchParser.ParseDiff | src/DiffViewer.tsx:40-108 | the loop over sections produces `Parse(patch)`: the empty patch gives no files, otherwise each non-blank section with a hunk yields one file, in order |
| PatchParser.ScanLines | src/DiffViewer.tsx:60-96 | the line loop produces `Run(lines, |lines|)`, the fold of one step per line |
| PatchParser.StepEntry | src/DiffViewer.tsx:61-95 | once in a hunk, each line appends one entry of its kind (`@@` hunk, `+` add, `-` del, anything else context), with the marker column stripped except from a hunk header, and bumps the additions or deletions tally |
| PatchParser.StepCounters | src/DiffViewer.tsx:61-95 | a matching hunk header resets the counters to its start lines and a non-matching one leaves them; an addition advances the new counter, a deletion the old one, a context line both |
| PatchParser.PreambleSkipped | src/DiffViewer.tsx:71 | lines before the first `@@` line change nothing |
| PatchParser.BodyLines | src/DiffViewer.tsx:60-96 | from the first `@@` line on, each line yields exactly one entry, in order, with its kind and content |
| PatchParser.HunkCounters | src/DiffViewer.tsx:61-95 | after a hunk header, the old counter is the header's old start plus the old-side lines since, and likewise for the new counter |
| PatchParser.LineNumbers | src/DiffViewer.tsx:73-95 | a body line's entry carries the counters as they stood before it: an addition its new number, a deletion its old number, a context line both |
| PatchParser.RunTallies | src/DiffViewer.tsx:73-86 | the additions and deletions tallies equal the numbers of add and del entries |
| PatchParser.RunYieldsLines | src/DiffViewer.tsx:60-98 | the line loop yields entries exactly when some line starts with `@@` |
| PatchParser.SectionYieldsFile | src/DiffViewer.tsx:47-105 | a section yields a file exactly when it is not blank and some line starts with `@@` |
| PatchParser.FileCounts | src/DiffViewer.tsx:98-105 | a file's additions count the additions shown in its right column, and its deletions the deletions shown in its left column |
| PatchParser.TrailingNewline | src/DiffViewer.tsx:49-95 | a trailing newline adds one empty context line, numbered with the current counters, as a final row on both sides |
| PatchParser.FileNameAt | src/DiffViewer.tsx:50-51 | the file name is the trimmed rest of the first line after its first `b/`, up to a line terminator |
| PatchParser.FileNameUnknown | src/DiffViewer.tsx:50-51 | a first line without `b/` gives the name `Unknown File` |
| PatchParser.GitHeaderName | src/DiffViewer.tsx:50-51 | for a header `a/P b/P` whose path has no `b/`, no line terminator and no surrounding whitespace, the file name is `P` |
| PatchParser.FileNameFirstB | src/DiffViewer.tsx:50-51 | when the old path itself contains `b/`, the name starts after that first `b/` and runs on through ` b/` and the new path |
| PatchParser.DecimalValue | src/DiffViewer.tsx:65-66 | `parseInt` of the decimal digits of `n` is `n` |
| PatchParser.HunkHeaderWellFormed | src/DiffViewer.tsx:63-67 | a line `@@ -S[,C] +S'[,C'] @@...` of digit strings matches, with the two start values as the numbers read |
| PatchParser.HunkHeaderNumbers | src/DiffViewer.tsx:63-67 | a header written with the decimal forms of two line numbers reads back as those two numbers, whatever counts and trailing text follow |
| PatchParser.HunkHeaderSound | src/DiffViewer.tsx:63-67 | conversely, a line matches only where it holds a well-formed header text `@@ -S[,C] +S'[,C'] @@`, with no match at any earlier index, and the numbers read are that text's two start lines |
| PatchParser.HeaderTextMatches | src/DiffViewer.tsx:63-67 | a well-formed header text `@@ -S[,C] +S'[,C'] @@` of digit strings at any index of a line is a match at that index, with the two start values as the numbers read; with HunkHeaderSound, "no match at an earlier index" means "no well-formed header text at an earlier index" |
| PatchParser.HunkHeaderFound | src/DiffViewer.tsx:63-67 | a line that holds a well-formed header text anywhere has a match |
| PatchParser.HunkHeaderLater | src/DiffViewer.tsx:63 | the pattern is not anchored: `@@@ -3 +4 @@` reads 3 and 4 |
| PatchParser.HunkHeaderAbsent | src/DiffViewer.tsx:63-64 | a line without `@@ -` does not match, so the counters are kept |
| PatchParser.HunkHeaderMalformed | src/DiffViewer.tsx:63-67 | a header whose new start is not a number, `@@ -1 +x @@`, does not match, so the counters are kept |
| PatchParser.BlankPatch | src/DiffViewer.tsx:41-47 | a patch made only of whitespace yields no files |
| Hast.FlattenTexts | src/DiffViewer.tsx:16-38 | flattening keeps every visible text, in document order: the token texts are the text nodes not inside an element without a class list |
| Hast.FlattenClasses | src/DiffViewer.tsx:19-23 | every token's class string starts with `token ` |
| Hast.FlattenAppend | src/DiffViewer.tsx:17 | flattening is a flat map: the tokens of two node lists are the tokens of each, in order |
| Hast.TextUnderElement | src/DiffViewer.tsx:19-34 | a text node inside an element takes that element's last class, or the enclosing innermost class (or `token-text`) when the element's class list is empty |
| Strings.Trim | src/DiffViewer.tsx:47 | `trim()` yields the middle of the string between its leading and trailing whitespace: empty exactly when the string is all whitespace, otherwise starting and ending with non-whitespace |
| Strings.SplitJoin | src/DiffViewer.tsx:43 | joining the pieces of a split with the separator gives the string back |
| Strings.SplitFree | src/DiffViewer.tsx:49 | no piece of a split contains the separator |

## Left out

- Rendering: the React components (`DiffViewer`, the row and icon components), `useMemo`, and
  the per-row syntax highlighting are not modelled.
- The highlighter (`refractor`) is called through code that is not part of this model.
  `flattenHast` therefore takes its syntax tree as an input.
- Hast: a `null` entry in a node list, or an element with a class list but no `children`, makes
  the source throw. The model's tree has no such nodes. Non-string class names go through
  `String(...)` in the source; the model takes class names as strings.
- Strings are modelled as sequences of code points. UTF-16 surrogate pairs, which the source
  indexes as two units, are not distinguished.
- PatchParser.DecimalValue: `Number.parseInt` is modelled as exact on unbounded naturals. The
  loss of precision above 2^53 is not modelled.
- Line counters and tallies are unbounded naturals. JavaScript numbers would lose precision only
  beyond 2^53 lines.
