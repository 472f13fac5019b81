# I2Languages translator — a Dafny model

The translator lets a user translate a Unity `I2Languages` text dump in three steps:

1. **Extract.** Uploading the dump lists every `string Term = "..."` declaration, together with the first `string data = "..."` line after it.
2. **Export and import.** The list is exported as a plain terms file, one block per term: the term, then its text, with blocks separated by a blank line. The same format is imported back once translated. Each translation is escaped (every `"` becomes `\"`). If it contains Persian letters (the Arabic block U+0600–U+06FF), it is also prefixed with the Right-To-Left Embedding mark U+202B.
3. **Re-inject.** Each translated term's data line is rewritten in place, keeping its indentation. The result is offered as a download named after the input.

The model has one module per concern:

- `Wrappers`: `Option` and `Result`.
- `JsText`: the JavaScript string operations the code relies on. These are `\s`, `trim`, `split`, `join` and `includes`.
- `Patterns`: TERM_REGEX and DATA_REGEX.
  - Each is modelled twice. One version is a deterministic matcher. The other is a declarative description of the strings the pattern matches.
  - Lemmas prove that the matcher returns the capture of the leftmost match. For DATA_REGEX it is the leftmost and longest match, because its `.*` is greedy.
- `Extraction`: `extractTermsFromContent`.
  - The single-pass scanner is proved equal to `ReferenceItems`. That is an independent definition: one item per term line, whose data slot is the first qualifying data line before the next term line.
- `Formatting`: `escapeSpecialCharacters` and `applyRTLFormatting`.
- `TranslationParser`: `parseTranslationFile`.
- `Injection`: `applyTranslationsToContent`.
  - Because every imported quote is escaped, a rewritten data line never matches TERM_REGEX, so an import cannot create a term line.
- `OutputNaming`: `generateOutputFileName`.
- `TermsExport`: the export text built by `handleExportTerms`, and the round trip from exporting the terms to importing them again.
- `IndexPage`: the four handlers of the page, seen as functions from the page state to a new state, a notice (the toast) and an optional download.
  - A state invariant says that every recorded data line exists in the current content. It holds after every sequence of completed handler steps. Because of it, no import in such a sequence reaches the failure path of `applyTranslationsToContent`.

## Model

| member | source | states |
|---|---|---|
| JsText.Trim | src/utils/translationHelpers.ts:84-90 | `trim` returns a middle part of the text, with only whitespace removed on either side. Neither end of the result is whitespace, and the result is empty exactly when the text is blank. |
| JsText.Lines | src/utils/translationHelpers.ts:21 | `split('\n')` always gives at least one line, and no line holds a newline. |
| JsText.JoinSplit | src/utils/translationHelpers.ts:111-125 | Joining the pieces of a split with the same separator gives the original text back. |
| JsText.LinesOfJoin | src/utils/translationHelpers.ts:111-125 | Splitting a `join('\n')` of newline-free lines gives exactly those lines back. |
| Patterns.TermCapture | src/utils/translationHelpers.ts:29 | `line.match(TERM_REGEX)?.[1]`: a term is made only of characters of the line. `TermCaptureIsLeftmost` says which capture it is. |
| Patterns.TermCaptureIsLeftmost | src/utils/translationHelpers.ts:9 | The term a line yields is the capture of the leftmost match of `string\s+Term\s*=\s*"([^"]+)"`. It is non-empty and quote-free. |
| Patterns.TermCaptureNone | src/utils/translationHelpers.ts:9 | A line yields no term exactly when TERM_REGEX matches at no position of the line. |
| Patterns.DataCapture | src/utils/translationHelpers.ts:44 | `line.match(DATA_REGEX)?.[1]`: a text is made only of characters of the line. `DataCaptureIsLeftmostLongest` says which capture it is. |
| Patterns.DataAtIsLongestMatch | src/utils/translationHelpers.ts:10 | At a given position, the data matcher returns the longest capture DATA_REGEX allows. That capture runs to the last quote before a line terminator. |
| Patterns.DataCaptureIsLeftmostLongest | src/utils/translationHelpers.ts:10 | The text a line yields is the longest capture of the leftmost match of `string\s+data\s*=\s*"(.*)"`. |
| Patterns.DataCaptureNone | src/utils/translationHelpers.ts:10 | A line yields no text exactly when DATA_REGEX matches at no position of the line. |
| Patterns.DeclarationReadsBack | src/utils/translationHelpers.ts:10 | Take whitespace, then `string data = "`, then a text without line terminators, then `"`. DATA_REGEX reads exactly that text back from the result. |
| Extraction.DataLineText | src/utils/translationHelpers.ts:43-46 | A line supplies a text exactly when it contains `string data =` and matches DATA_REGEX. |
| Extraction.ExtractTermsFromContent | src/utils/translationHelpers.ts:19-58 | The scanner's list equals the reference list. That list has one item per line matching TERM_REGEX, in line order. Each item's text and data line come from the first qualifying data line in its region. |
| Extraction.ExtractedTermLines | src/utils/translationHelpers.ts:25-40 | Each item sits on a line of the text whose TERM_REGEX capture is the item's term. Items come in strictly increasing line order. |
| Extraction.ExtractedEveryTermLine | src/utils/translationHelpers.ts:29-38 | Every line matching TERM_REGEX has an item. |
| Extraction.ExtractedDataSlot | src/utils/translationHelpers.ts:34-50 | An item's data line is the first qualifying data line between its own line and the next item's line. Its text is that line's DATA_REGEX capture. Without such a line, the text is empty and there is no data line. |
| Extraction.ExtractedNothing | src/utils/translationHelpers.ts:53-57 | The result is empty exactly when no line matches TERM_REGEX. |
| Extraction.ExtractedDataLinesInRange | src/utils/translationHelpers.ts:43-50 | Every recorded data line is a line of the text. |
| Extraction.ItemsNewlineFree | src/utils/translationHelpers.ts:35-46 | No extracted term or text contains a newline. |
| Formatting.EscapeSpecialCharacters | src/utils/translationHelpers.ts:63-65 | The result grows by one character per quote. Every quote in it has a backslash in front, and it holds no character other than those of the input and the backslash. |
| Formatting.UnescapeEscape | src/utils/translationHelpers.ts:63-65 | Escaping only inserts backslashes: removing a backslash before each quote gives the input back. |
| Formatting.EscapeQuoteFree | src/utils/translationHelpers.ts:63-65 | Text without quotes is left unchanged. |
| Formatting.EscapedQuoteEscapedAgain | src/utils/translationHelpers.ts:63-65 | An already escaped quote is escaped again, so `\"` becomes `\\"`. |
| Formatting.ApplyRtlFormatting | src/utils/translationHelpers.ts:70-77 | The mark U+202B is prepended exactly when the text has a character in U+0600–U+06FF. Otherwise the text is unchanged. |
| Formatting.RtlTwice | src/utils/translationHelpers.ts:13-77 | The mark lies outside the Arabic block. So formatting twice gives two marks to a text with a character in U+0600–U+06FF, and leaves any other text unchanged. |
| Formatting.EscapeKeepsArabic | src/utils/translationHelpers.ts:93-94 | Escaping does not change whether a text has Persian letters, so the RTL decision is the same before and after escaping. |
| Formatting.FormatTranslation | src/utils/translationHelpers.ts:93-94 | A translation is escaped, then RTL-formatted. The result has an Arabic-block character exactly when the typed line does. |
| Formatting.FormatEscapesQuotes | src/utils/translationHelpers.ts:63-77 | After escaping and RTL formatting, every quote of a translation has a backslash right before it. The mark, when added, goes before the escaped text. |
| Formatting.FormatPlain | src/utils/translationHelpers.ts:93-94 | A translation without quotes or Persian letters is imported exactly as written. |
| TranslationParser.NonBlank | src/utils/translationHelpers.ts:84-87 | `filter(x => x.trim())` keeps exactly the non-blank pieces. |
| TranslationParser.Blocks | src/utils/translationHelpers.ts:84 | The blocks are the pieces of `split('\n\n')` that `NonBlank` keeps, so no block is blank. |
| TranslationParser.KeptIndices | src/utils/translationHelpers.ts:84-87 | The pieces `filter(x => x.trim())` keeps sit at strictly increasing positions of the input, and every non-blank position is among them. So the filter keeps each non-blank piece once, in its original order. |
| TranslationParser.BlockEntry | src/utils/translationHelpers.ts:87-96 | A block sets a term exactly when it has at least two non-blank lines. The term is the first non-blank line, trimmed. The translation is the second non-blank line, trimmed, escaped and RTL-formatted. The term is non-empty and single-line, and so is the translation. |
| TranslationParser.BlockEntryOfFirstTwo | src/utils/translationHelpers.ts:87-96 | Conversely, whenever lines `i` and `j` are the first two non-blank lines of a block, the block's entry is built from those two lines. |
| TranslationParser.Assign | src/utils/translationHelpers.ts:86-98 | The map's keys are the starting keys plus the terms set. A key's value comes from the last entry that sets it. Keys no entry sets keep their values. |
| TranslationParser.CrlfFileIsOneBlock | src/utils/translationHelpers.ts:84-97 | A file whose every newline follows a carriage return has no `\n\n`. A non-blank one is a single block, and the map holds at most that block's entry: only the first term is imported. |
| TranslationParser.ParseTranslationFile | src/utils/translationHelpers.ts:82-101 | The keys are exactly the terms of blocks that have an entry. The last block for a term decides its value. The map is empty exactly when no block has an entry, and every key and value is a single line. |
| Injection.Indentation | src/utils/translationHelpers.ts:118 | The indentation is the longest whitespace prefix of the line. |
| Injection.RewriteDataLine | src/utils/translationHelpers.ts:117-119 | The rewritten line keeps the original's indentation and is followed by `string data = "<translation>"`. |
| Injection.RewriteTwice | src/utils/translationHelpers.ts:117-119 | Rewriting a rewritten line is the same as rewriting the original once. |
| Injection.RewrittenLineReadsBack | src/utils/translationHelpers.ts:117-119 | For a translation without line terminators, a rewritten line is a data line again, and DATA_REGEX reads the translation back from it. |
| Injection.TerminatorNotReadBack | src/utils/translationHelpers.ts:10-119 | A quote-free translation that holds a line terminator (`\n`, `\r`, U+2028 or U+2029) gives a rewritten line that is not a data line: the `.` of DATA_REGEX stops at the terminator before the closing quote. |
| Injection.CarriageReturnDropped | src/utils/translationHelpers.ts:117-119 | Every rewritten line ends with the closing quote, whatever the original line held. So anything after the original's closing quote is lost, including the `\r` of a CRLF file. |
| Injection.RewriteIsNeverATermLine | src/utils/translationHelpers.ts:9 | A data line rewritten with a translation whose every quote has a backslash before it never matches TERM_REGEX. |
| Injection.FormattedRewriteIsNeverATermLine | src/utils/translationHelpers.ts:63-119 | Every translation the importer produces is escaped, so no rewrite creates a term line, whatever the translator typed. |
| Injection.LastWriter | src/utils/translationHelpers.ts:114-122 | Finds the last item that rewrites a given line, if there is one. |
| Injection.CountApplicable | src/utils/translationHelpers.ts:115-120 | The count is zero exactly when no item has both a non-empty translation and a data line. |
| Injection.CountIsApplicable | src/utils/translationHelpers.ts:115-120 | The count is the number of positions whose item has a translation and a data line, so `appliedCount` counts the applicable items. |
| Injection.ApplyItems | src/utils/translationHelpers.ts:111-122 | The loop succeeds exactly when every applicable item names an existing line. It keeps the line count and counts the applicable items. A failure names the first applicable item whose line is missing. |
| Injection.ApplyItemsLines | src/utils/translationHelpers.ts:114-122 | After the loop, each line is the original, or its rewrite by the last item that writes it. |
| Injection.ApplyTranslationsToContent | src/utils/translationHelpers.ts:106-128 | The call fails exactly when an applicable item's line does not exist. Otherwise `appliedCount` is the number of applicable items. |
| Injection.UpdatedLines | src/utils/translationHelpers.ts:106-128 | With single-line translations, the updated content has as many lines as before. Each line is the original or its rewrite by the last item that writes it. |
| Injection.NothingApplicable | src/utils/translationHelpers.ts:114-127 | With nothing applicable, the content comes back unchanged with a count of zero. |
| OutputNaming.BaseName | src/utils/translationHelpers.ts:156 | The base name is a prefix of the name. It is four characters shorter exactly when the name ends in `.txt` in any letter case, and is the whole name otherwise. |
| OutputNaming.GenerateOutputFileName | src/utils/translationHelpers.ts:155-158 | The result ends with the suffix and `.txt`. What comes before is the input name, less one final `.txt` exactly when it has one. |
| OutputNaming.NameOfOutput | src/utils/translationHelpers.ts:155-158 | Naming an output after an output keeps the first suffix and appends the second. |
| OutputNaming.DoubleExtension | src/utils/translationHelpers.ts:156 | Only the final extension is removed: `a.txt.txt` becomes `a.txt_Translated.txt`. |
| OutputNaming.AnyCaseExtension | src/utils/translationHelpers.ts:156 | The extension is matched without regard to case. For each of the eight spellings `e` of `.txt`, a name `base + e` becomes `base`, then the suffix, then `.txt`. |
| OutputNaming.OtherExtension | src/utils/translationHelpers.ts:156 | The name is kept whole, any other extension included, exactly when it does not end with `.txt` in some letter case. |
| TermsExport.ExportBlockLines | src/pages/Index.tsx:107 | An item's block is `${term}\n${originalText}`. For a single-line term and text, its lines are exactly the term and the text. |
| TermsExport.PairsExport | src/pages/Index.tsx:106-108 | Exporting no items gives the empty text, and exporting one item gives exactly its block, with no separator after it. |
| TermsExport.PairsExportCons | src/pages/Index.tsx:106-108 | Exporting one more item in front adds its block and a blank line. |
| TermsExport.ExportEntries | src/pages/Index.tsx:106-108 | For clean items, the importer reads one entry per exported item, in order. The entry is the item's term and text, or none when the text is blank. |
| TermsExport.ExportImportRoundTrip | src/pages/Index.tsx:106-108 | Importing an exported terms file gives a key for each term that has a non-blank text. The value is the text of the last such item, provided the items are clean (see `Exportable`). |
| IndexPage.HandleFileUpload | src/pages/Index.tsx:30-64 | The name is always taken. A blank file changes nothing else. Otherwise the text becomes the content and its extraction the item list, with a warning exactly when the list is empty. |
| IndexPage.UploadFindsNothing | src/pages/Index.tsx:39-57 | An upload warns that nothing is translatable exactly when the file is not blank and no line matches TERM_REGEX. A blank file gets the empty-file notice instead. |
| IndexPage.HandleExportTerms | src/pages/Index.tsx:95-116 | A download is offered exactly when there are items. It holds their blocks under the name with `_ExtractedTerms`, and the state does not change. |
| IndexPage.HandleImportTranslations | src/pages/Index.tsx:128-167 | A blank file, a file without entries and a failure while applying leave the state unchanged. The "processing failed" notice appears exactly when the file is non-blank, has entries, and an applicable item's data line does not exist. Otherwise only the content changes, to the updated content, and the count is reported. |
| IndexPage.HandleDownloadFinal | src/pages/Index.tsx:198-215 | A download is offered exactly when the content is non-empty, under the name with `_Translated`. |
| IndexPage.InitialWf | src/pages/Index.tsx:25-27 | The initial state satisfies the invariant: every recorded data line exists in the content. |
| IndexPage.UploadKeepsWf | src/pages/Index.tsx:39-64 | An upload keeps the invariant. |
| IndexPage.ImportNeverFails | src/pages/Index.tsx:156-162 | While the invariant holds, the import's call to `applyTranslationsToContent` never throws. |
| IndexPage.ImportKeepsWf | src/pages/Index.tsx:156-162 | An import keeps the invariant, since the line count does not change. |
| IndexPage.ImportRewritesLines | src/pages/Index.tsx:156-162 | After an applied import, each line is the previous line or its rewrite by the last item that writes it. |
| IndexPage.RunKeepsWf | src/pages/Index.tsx:25-215 | Every state reached by a sequence of completed handler steps (uploads, imports, exports and downloads, each run to completion on the current state) satisfies the invariant. |
| IndexPage.NoImportFailsInSession | src/pages/Index.tsx:128-176 | In every sequence of completed handler steps, no import reaches the "processing failed" notice. |

## Left out

- `downloadFile` is left out. It creates a Blob, an object URL and a link, and uses a timer. Each handler returns the `Download` it would ask for instead.
- The `FileReader`, its `onerror` path, the toasts' wording, `console.error` and the outer `try`/`catch` blocks are I/O. A reader's result is a parameter, and a toast is a `Notice`. The upload handler sets the file name before the read starts, so a failed read leaves the new name with the old content; `HandleFileUpload` models only a read that succeeds, and this state is not modelled.
- The page's JSX and its child components are user interface only.
- JavaScript strings are UTF-16, and the model's `char` is a Unicode scalar value. The two agree for every character the patterns and the Arabic-block test look at, except that an astral character counts as one `char` rather than two code units.
- Injection.RewrittenLineReadsBack: promises the read-back only for translations without line terminators, because the `.` of DATA_REGEX does not match one. `Injection.TerminatorNotReadBack` states what happens otherwise, for quote-free translations. A translation with both an escaped quote and a line terminator is read back cut short, and that case is not modelled.
- IndexPage.RunKeepsWf: each handler is one step that runs to completion on the current state. In the page, a reader's `onload` runs later and uses the content and items of the render that started it. An upload finishing while an import's read is pending can leave the import's rewritten content next to the new file's items; a later import can then meet a missing line and show the "processing failed" notice. Reads overlapping across handlers are not modelled.
- IndexPage.NoImportFailsInSession: holds only for sequences of completed handler steps. With an upload overlapping an import's read, as above, a later import can fail.
- Injection.UpdatedLines: assumes translations without newlines. `parseTranslationFile` guarantees this, so every caller on the page meets it.
- TermsExport.ExportImportRoundTrip: covers only clean items (`Exportable`: trimmed, single-line, quote-free and without Persian letters). A quote or a Persian letter in a text is changed by the escaping and the RTL mark on import, as `Formatting` states.

Behaviours of the code that the model reproduces rather than corrects:

- A rewritten data line loses anything after its closing quote, including a trailing `\r` (`Injection.CarriageReturnDropped`).
- A translation file with CRLF line breaks has no `\n\n`, so it is read as one block and only its first term is imported (`TranslationParser.CrlfFileIsOneBlock`).
- The parser splits blocks only on `\n`, and `trim` removes only outer whitespace. So an inner `\r`, U+2028 or U+2029 of a translation reaches the rewritten line. DATA_REGEX does not read that line back, so extracting from the downloaded file finds no text there (`Injection.TerminatorNotReadBack`, shown for quote-free translations).
- An already escaped quote is escaped again (`Formatting.EscapedQuoteEscapedAgain`).
- Formatting an already marked text adds a second mark (`Formatting.RtlTwice`).
- An import does not refresh the extracted items, so their texts stay those of the original upload.
- The export includes items whose text is empty; their blocks have one non-blank line and yield no entry on import (`TermsExport.ExportEntries`).
- The file name is updated even when the uploaded file is blank (`IndexPage.HandleFileUpload`).
