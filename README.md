# palette-replace: the colour-rewriting core in Dafny

palette-replace rewrites every hex colour literal in a text file, such as CSS or SVG, to the
nearest colour of a chosen palette. It then offers the result for download
under a new file name that carries the palette's name. This project models
the pure core of `src/main.ts` and proves what it does:

- `normalizeHex` (module `Normalize`) brings a hex string to `#rrggbb` form.
  - It strips the first `#`.
  - It doubles the colour digits of 3- and 4-digit shorthand.
  - It keeps at most six characters and lower-cases them.
- `findNearestColor` (module `Matcher`) is a loop over the palette.
  - It starts from the first entry and a best distance of `Infinity`.
  - It moves to an entry only when that entry's distance is strictly smaller, so the first minimum wins.
  - The colour distance is a parameter, and so are the JavaScript numbers it can return: finite, `±Infinity` and `NaN`.
  - The loop is a method proved equal to a specification function. The function's properties are proved as lemmas.
- `HEX_COLOR_REGEX` and the global `replace` of `replaceColors` (modules `Scanner` and `Rewriter`).
  - The regex is modelled as written: the alternatives are tried in order, the optional alpha group is greedy, and `\b` is the ASCII word boundary.
  - It is proved equal to a plain recognition rule. A `#` starts a token exactly when the maximal run of hex digits after it has 3, 4, 6 or 8 digits and is followed by the end of the text or by a character that is not a word character.
  - The left-to-right search cuts the text into non-overlapping pieces that tile it. Tokens are handed to the callback; every other character is copied in order.
  - The per-token callback splits off the alpha digits, looks up the nearest entry, and appends the alpha digits again.
- The download file name expression (module `FileName`).
  - It lower-cases the palette name and turns each run of white space into `-`.
  - It puts the result in front of the file's final extension through a `replace` template.
  - Because the template is a JavaScript replacement pattern, `$` in a palette name is interpreted, not copied. See Findings.

Module `Chars` holds the character classes and the small string operations:
`toLowerCase`, `replace('#', '')` and `slice(0, n)`. Module `Scenarios` works
through particular inputs for any palette and any distance.

Behaviours of the code that the model keeps as they are:

- The code reports no error for an empty palette: `palette.colors[0]` is `undefined` and would be spliced into the output. The model requires a non-empty palette instead of inventing an error path.
- The rewrite is not idempotent, because palette entries are returned verbatim, in whatever form the palette stores them.
- The code validates no palette entries.
- `\b` needs a non-word character after the digits, not just a non-hex-digit, so `#abcg` is not a token (`Scenarios.FollowedByWordCharUnchanged`).

## Model

| member | source | states |
|---|---|---|
| Chars.LowerChar | src/main.ts:17 | `toLowerCase` on one character: `A`-`Z` move by 32, everything else is kept, and hex-digit status is preserved |
| Chars.Lower | src/main.ts:17 | lower-casing keeps the length and maps every character by `LowerChar` |
| Chars.RemoveFirst | src/main.ts:8 | `replace('#', '')` removes at most one character: the text is unchanged without a `#`, one shorter with one, the multiset loses exactly one `#`, and a leading `#` is the one removed |
| Chars.RemoveFirstAt | src/main.ts:8 | the `#` removed is the first one: with `i` its index, the result is the text before `i` followed by the text after `i`, every other character in its order |
| Chars.Take | src/main.ts:17 | `slice(0, n)` is a prefix of length `min(n, |s|)` |
| Normalize.Doubled | src/main.ts:10-16 | the shorthand expansion has six characters, each the `i/2`-th input character |
| Normalize.NormalizeHex | src/main.ts:7-18 | the output always starts with `#`, has at most six characters after it, and none of them is upper case |
| Normalize.NormalizeShort | src/main.ts:7-17 | a 3- or 4-digit input, with or without its `#`, gives `#` and the first three digits doubled and lower-cased: 7 characters |
| Normalize.NormalizeLong | src/main.ts:7-17 | an input of six or more digits, with or without its `#`, gives `#` and its first six digits lower-cased |
| Matcher.Less | src/main.ts:29 | JavaScript's `<`: false when either side is `NaN`, and the order of the reals on finite values |
| Matcher.LessStrictOrder | src/main.ts:29 | without `NaN`, `<` is irreflexive, asymmetric and total, with `-Infinity` lowest and `Infinity` highest |
| Matcher.Distances | src/main.ts:21-27 | one distance per palette entry, in palette order, from the normalized target |
| Matcher.Scan | src/main.ts:22-33 | on a non-empty palette the loop's best index lies inside it, and its best distance is either `Infinity` or the distance at that index |
| Matcher.ScanKeepsInvariant | src/main.ts:22-33 | after any prefix of the palette, either no distance so far is below `Infinity` and the state is still (entry 0, `Infinity`), or the best index is the first minimum and its distance is the best distance |
| Matcher.FirstMinimumUnique | src/main.ts:29-32 | there is at most one first minimum |
| Matcher.NearestIndex | src/main.ts:20-36 | the chosen index lies inside the palette |
| Matcher.NearestColor | src/main.ts:20-36 | for a non-empty palette the result is one of its entries |
| Matcher.NearestIsFirstMinimum | src/main.ts:25-33 | when some entry's distance is below `Infinity`, the chosen index holds the first minimum: nothing is closer, and every earlier comparable entry is strictly farther |
| Matcher.NearestFallsBackToFirst | src/main.ts:22-35 | when no distance is below `Infinity` (all `Infinity` or `NaN`), the first entry is returned |
| Matcher.NearestOnFiniteDistances | src/main.ts:25-33 | with finite distances, `dist(i) <= dist(j)` for every `j` and `dist(i) < dist(j)` for every `j < i` |
| Matcher.FindNearestColor | src/main.ts:20-36 | the loop that updates `minDistance` and `nearestColor` returns exactly `NearestColor`, so it inherits every property above |
| Scanner.RegexMatchAt | src/main.ts:5 | a match starts with `#` and is followed by 3, 4, 6 or 8 hex digits, all present in the text |
| Scanner.HexRun | src/main.ts:5 | the run of hex digits from a position is maximal: all of it is hex digits, and the next character is not |
| Scanner.TokenAt | src/main.ts:5 | a token found is `#` and 3, 4, 6 or 8 hex digits, followed by the end of the text or by a character that is not a word character |
| Scanner.RecognitionRule | src/main.ts:5 | the regex, with its alternatives and backtracking, matches at a position exactly when the recognition rule does, with the same length |
| Scanner.MatchShift | src/main.ts:5 | whether and how far the regex matches at a position depends only on the text from that position on |
| Scanner.TokenizeFrom | src/main.ts:39 | every piece of the search lies inside the text, after the starting position |
| Scanner.TokenizeTiles | src/main.ts:39 | the pieces cover the text left to right, end to end, without gaps or overlap |
| Scanner.TokenizeRecognises | src/main.ts:39 | every token piece is a regex match of exactly its length, and no match starts at a character that is passed over |
| Rewriter.ReplaceMatch | src/main.ts:40-58 | the callback returns a palette entry followed by exactly the alpha part: the last two digits of eight, the fourth of four twice, nothing otherwise |
| Rewriter.ReplaceMatchDigits | src/main.ts:40-58 | the callback on `#h` looks up `#` plus the first six digits and appends digits 7-8 for eight digits; looks up `#` plus the first three and appends the fourth twice for four digits; otherwise looks up the whole match |
| Rewriter.NearestToSix | src/main.ts:46-57 | the entry found for six colour digits is the one nearest to their lower-cased `#rrggbb` form |
| Rewriter.NearestToThree | src/main.ts:50-57 | the entry found for three colour digits is the one nearest to their doubled, lower-cased `#rrggbb` form |
| Rewriter.EightTokenReassembly | src/main.ts:44-58 | an 8-digit token becomes the nearest entry followed by its last two digits exactly as written |
| Rewriter.SixTokenReassembly | src/main.ts:52-58 | a 6-digit token becomes the nearest entry with no suffix |
| Rewriter.FourTokenReassembly | src/main.ts:48-58 | a 4-digit token is matched on its first three digits and becomes the entry followed by the fourth digit twice |
| Rewriter.ThreeTokenReassembly | src/main.ts:52-58 | a 3-digit token becomes the nearest entry with no suffix |
| Rewriter.TokenReassembly | src/main.ts:40-58 | for any token `#h` the regex can match, the callback gives `TokenReplacement(h)`: the entry nearest to the normalized colour digits, then the alpha digits (the four cases above together) |
| Rewriter.TokenPieceReplaced | src/main.ts:39-58 | a match found by the search is rewritten as `TokenReplacement` of its digits |
| Rewriter.RewriteRendersPieces | src/main.ts:39 | the output of the global replace is the in-order concatenation of the callback's results for tokens and the characters passed over |
| Rewriter.RewriteWithoutHash | src/main.ts:39 | without a `#` the regex matches nowhere and the search copies the text |
| Rewriter.ReplaceAll | src/main.ts:39 | the global replace returns text without `#` unchanged |
| Rewriter.ReplaceAllLoop | src/main.ts:39 | the position-by-position loop of the regex engine produces exactly the global replace |
| Rewriter.ReplaceColors | src/main.ts:38-60 | `replaceColors` returns text without `#` unchanged |
| Rewriter.PiecesReplaced | src/main.ts:39-58 | each piece of the search is rendered as its copied character or as `TokenReplacement` of its digits |
| Rewriter.ReplaceColorsPieces | src/main.ts:38-60 | for any text: the pieces tile it; the output is their renderings in order; a character where no match starts is copied; a token is replaced by the nearest entry to its normalized colour digits followed by its alpha digits |
| Rewriter.RewriteShift | src/main.ts:39 | the output for the text from a position depends only on the text from there on |
| Rewriter.ReplaceWithoutTokens | src/main.ts:39 | text in which no token starts comes out unchanged |
| Rewriter.ReplaceVerbatimPrefix | src/main.ts:39 | text without `#` in front of the rest is copied verbatim, and the rest is rewritten as if alone |
| Rewriter.ReplaceTokenPrefix | src/main.ts:39 | a token at the front goes to the callback on its own, and the search resumes right after it as on the remaining text alone |
| Scenarios.UnchangedWhenNoToken | src/main.ts:5-39 | a text whose only `#` starts no token is returned unchanged |
| Scenarios.FiveAndSevenDigitsUnchanged | src/main.ts:5-39 | runs of five and of seven digits are not tokens and pass through unchanged |
| Scenarios.FollowedByWordCharUnchanged | src/main.ts:5-39 | three digits followed by `g` are not a token and pass through unchanged |
| Scenarios.EightDigitExample | src/main.ts:38-58 | `#112233cc` becomes the entry nearest to `#112233` followed by `cc` |
| Scenarios.FourDigitExample | src/main.ts:38-58 | `#F0A8` becomes the entry nearest to `#ff00aa` followed by `88` |
| FileName.DropSpaces | src/main.ts:120 | the result is a suffix, everything dropped is white space, and the result does not start with white space |
| FileName.DropSpacesKeeps | src/main.ts:120 | dropping leading white space keeps every other character that occurs and adds none |
| FileName.CollapseSpaces | src/main.ts:120 | `replace(/\s+/g, '-')` leaves no white space and does not make the text longer |
| FileName.CollapseSpacesKeeps | src/main.ts:120 | every character other than `-` and white space occurs after collapsing exactly when it occurred before |
| FileName.CollapseWithoutSpaces | src/main.ts:120 | text without white space is left as it is |
| FileName.CollapseRun | src/main.ts:120 | a run of white space of any length becomes exactly one `-` |
| FileName.DropSpacesAcrossAll | src/main.ts:120 | when a text is all white space, the run to drop goes on into what follows |
| FileName.DropSpacesWithin | src/main.ts:120 | when a text holds something other than white space, the run to drop ends inside it |
| FileName.CollapseSplit | src/main.ts:120 | collapsing works piece by piece at any cut that does not split a run of white space; with the two rows above, each maximal run becomes one `-` and every other character stays, in order |
| FileName.Slug | src/main.ts:120 | the slug has no white space and no upper case, and contains `$` exactly when the palette name does |
| FileName.LastDot | src/main.ts:120 | the position found is a `.` with no `.` after it, and none is found only when there is no `.` at all |
| FileName.ExtensionStart | src/main.ts:120 | the extension found is where `/(\.[^.]+)$/` matches, and that match is unique |
| FileName.Expand | src/main.ts:120 | a template without `$` expands to itself |
| FileName.ExpandLiteral | src/main.ts:120 | template text without `$` is copied as it is |
| FileName.ExpandGroup | src/main.ts:120 | `$1` in the template stands for the captured extension |
| FileName.LiteralThenGroup | src/main.ts:120 | a `$`-free text followed by `$1` expands to the text followed by the extension |
| FileName.TemplateInsertsSlug | src/main.ts:120 | with a `$`-free slug, the template gives `-slug` followed by the extension |
| FileName.NewFileName | src/main.ts:120 | a file name with no final `.ext` is kept; otherwise the part before the match is kept and the match is replaced by the expanded template `-slug$1` |
| FileName.RenameForPalette | src/main.ts:120 | the intended name: a file name with no final `.ext` is kept; otherwise it is the part before the extension, then `-slug`, then the extension |
| FileName.NewFileNameWithoutDollar | src/main.ts:120 | for a palette name without `$`, the expression as written gives the intended name |
| FileName.DollarInNameLosesExtension | src/main.ts:120 | for `a.css` and palette `X$`, the expression as written gives `a-x$1`, while the intended name is `a-x$.css` |

## Left out

- Colour distance: colorsea's CIEDE2000 `deltaE` and the Lab conversion behind it (src/main.ts:1, 21, 26-27) are floating-point code in a foreign library. The distance is a parameter of type `(string, string) -> Number`. No symmetry and no zero-on-equal property is assumed.
- Matcher.NearestColor: requires a non-empty palette. The code reads `palette.colors[0]`, which is `undefined` for an empty palette; the model does not represent `undefined`.
- Matcher.FindNearestColor: requires a non-empty palette, for the same reason.
- Rewriter.ReplaceColors: requires a non-empty palette, even for text with no tokens, where the code never calls the matcher.
- Idempotence of the rewrite is not claimed: the code does not provide it, because entries are returned verbatim in the palette's own format.
- Characters are ASCII: the Unicode behaviour of `toLowerCase` outside `A`-`Z` and the UTF-16 code-unit view of strings are not modelled. The white space class `\s` is written out in full.
- The callback's extra arguments (capture groups, offset, whole string) are unused by the code and not modelled.
- `downloadFile` and `init` (src/main.ts:62-128): DOM, Blob/URL, FileReader and event plumbing. Only the pure file name expression at src/main.ts:120 is modelled.
- The palette catalogue `./palettes` is not part of this model; a palette is its `seq<string>` of colours.
- vite.config.ts is build configuration and is not part of this model.

## Findings

| source | as written | input that shows it | evidently intended | confidence | as-written member | corrected member |
|---|---|---|---|---|---|---|
| src/main.ts:120 | the palette slug is pasted into a `replace` template, so `$` patterns in a palette name are expanded | file `a.css`, palette `X$`: the template becomes `-x$$1`, which gives `a-x$1` | `a-x$.css`: the slug inserted literally before the extension | not executed | FileName.NewFileName, FileName.DollarInNameLosesExtension | FileName.RenameForPalette, FileName.NewFileNameWithoutDollar |
