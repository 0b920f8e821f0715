# Markdown post-processing and metadata core of the medical answer generator

The system turns past exam papers into answer-and-explanation Markdown with
an LLM, adds metadata, and typesets the Markdown with pandoc. This project
models the parts of it that are plain text processing, and proves what they
promise.

**The Markdown post-processing pipeline.** It prepares generated Markdown
for pandoc. It exists twice: in the web service
(`app/services/legacy/convert_markdown.py`) and in the command-line
converter (`legacy_scripts/convert_md_to_pdfs-v3.6.py`). Its stages are:

- the bracket matcher `_find_closing_delimiter` (module `Delimiter`);
- the image stripper `_strip_markdown_images`, with the web service's short
  log and the command-line converter's descriptive log (`Images`);
- the front-matter finder and the horizontal-rule normalizer
  (`HorizontalRules`);
- the blockquote attribution injector (`Blockquotes`). The two copies differ
  only in their marker list: the command-line copy also treats
  `DEFAULT_BLOCKQUOTE_ATTRIBUTION` as a marker;
- the symbol sanitizer (`Symbols`);
- the two stage chains (`Conversion`). The web service runs disclaimer,
  inject, normalize, strip, sanitize. The command-line converter runs inject,
  normalize, disclaimer, strip, sanitize.

**The attribution helpers of the command-line converter** (`Sidecar`):

- the default attribution;
- `build_blockquote_attribution`;
- the line-based sidecar reader used when PyYAML is absent;
- the precedence between the environment, a sidecar and the default;
- `_normalize_stem`.

**The web pipeline's attribution text** `_build_attribution_text`
(`Pipeline`).

**The metadata generator** `add_metadata-v3.4.py`:

- `try_parse_yaml_block` without PyYAML (`MetadataParser`);
- `_is_unknown_field`, `enforce_and_fill_fields` and `render_front_matter`
  (`MetadataFill`);
- which of up to three replies `process_file` keeps (`AttemptSelection`).

**Two round trips.** The converter's sidecar reader reads back what the
generator's renderer writes (`RoundTrip`). The generator's own fallback
parser reads back the same rendered front matter (`Reparse`).

**The name helpers of the web generator** (`Naming`):

- `_normalize_base_name`;
- `_contains_invalid_keyword` and the acceptance test built on it;
- the title rule of `_build_prompt`.

**Shared modules.** `PyStr` gives Python's string operations on
`seq<char>`: `strip`, `lstrip`, `rstrip`, `splitlines`, `join`, `find`,
`in`, `startswith`, `endswith`, and the pathlib stem. Dafny characters are
Unicode scalar values, which are exactly Python code points. `splitlines`
breaks at every boundary Python recognises: `\n`, `\r`, `\r\n`, `\v`, `\f`,
`\x1c`-`\x1e`, `\x85`, U+2028 and U+2029. `strip` and `isspace` use the
Unicode whitespace set. `Values` gives the dynamic values the metadata code
handles (`None`, strings, integers, lists) and their `str()`.

Every stage that the source writes as a loop has two forms here:

- a method with the loop;
- a recursive specification function. The method is proved equal to it.

The properties are proved as lemmas about the specification functions.

Some of the code's behaviour is surprising, and the model proves it as
written:

- The image stripper is not idempotent: `!![a](b)[c](d)` becomes `![c](d)`
  (`Images.StripNotIdempotent`).
- The web-service chain inserts the disclaimer before the normalizer runs.
  Front matter that opened the input is then no longer on line 0, so its
  opening `---` becomes `***` (`Conversion.AppLosesFrontMatter`).
- The command-line chain runs the normalizer first and keeps that front
  matter verbatim (`Conversion.LegacyKeepsFrontMatter`).

## Model

| member | source | states |
|---|---|---|
| Delimiter.FindClosingDelimiter | app/services/legacy/convert_markdown.py:226-242 | The scanner loop returns what the recursive scan `FindClose` gives. |
| Delimiter.FindClose | app/services/legacy/convert_markdown.py:226-242 | A returned index lies in the text at or after the start and holds the closer. When started on an opener, it lies strictly after the start. |
| Delimiter.FindCloseIsFirstBalancedCloser | app/services/legacy/convert_markdown.py:226-242 | The returned index is the first unescaped closer at which unescaped openers minus unescaped closers, counted from the start, reach zero. None means no such position exists. An escape is a backslash that is not itself escaped. |
| Delimiter.EscapedCloserIsSkipped | app/services/legacy/convert_markdown.py:232-234 | An escaped `]` does not close: `[a\]b]c` from index 0 matches at 5. |
| Images.ScanImage | app/services/legacy/convert_markdown.py:188-219 | Recognising an image at one index is the specification `ImageAt`: `![alt]`, optional whitespace, then a matched `(...)` or `[...]`. |
| Images.StripMarkdownImages | app/services/legacy/convert_markdown.py:180-223 | The one-pass scanner's text is the specification's remaining text. Its log has one entry per removed span, in order, in the web service's or the command-line converter's style. |
| Images.DropImage | app/services/legacy/convert_markdown.py:202-219 | A recognised image is skipped past its closer and its log entry appended; the pass invariant is kept. |
| Images.KeepChar | app/services/legacy/convert_markdown.py:220-221 | A code point where no image is recognised is copied to the output; the pass invariant is kept. |
| Images.SkipSpaceSpec | app/services/legacy/convert_markdown.py:199-201 | The skip after the alt text passes over whitespace only and stops at the first code point that is not whitespace. |
| Images.StripDeletesSpans | app/services/legacy/convert_markdown.py:186-221 | The removed spans are valid image spans, ordered and disjoint. The output is the input with exactly those spans deleted. The spans are every image the scan reaches: none is recognised before the first span or between spans, each span starts where one is recognised, and none is recognised after the last span. |
| Images.StripFromMaximal | app/services/legacy/convert_markdown.py:186-221 | From any index, the scan removes the first image it recognises and continues after that image's closer, so no recognisable image is passed over. |
| Images.EscapedBangNeverStarts | app/services/legacy/convert_markdown.py:188-193 | A `!` preceded by a backslash never starts a removed span. |
| Images.NoOpenerUnchanged | app/services/legacy/convert_markdown.py:186-193 | Text with no `!` directly followed by `[` comes back unchanged, with an empty log. |
| Images.UnterminatedTargetKept | app/services/legacy/convert_markdown.py:202-207 | `![alt](unterminated` comes back unchanged, with an empty log. |
| Images.InlineImageLog | legacy_scripts/convert_md_to_pdfs-v3.6.py:257-269 | Removing `![alt](x.png)` leaves nothing. The command-line log entry is `markdown:alt -> x.png`; the web-service entry is `inline-image`. |
| Images.StripNotIdempotent | app/services/legacy/convert_markdown.py:186-221 | Stripping twice differs from stripping once: `!![a](b)[c](d)` gives `![c](d)`, which strips to the empty text. |
| HorizontalRules.FindFrontMatterEnd | app/services/legacy/convert_markdown.py:168-177 | The early-returning loop gives the specification `FrontMatterEnd`. |
| HorizontalRules.FrontMatterEndSpec | app/services/legacy/convert_markdown.py:168-177 | There is front matter exactly when line 0 strips to `---` and a later line strips to `---` or `...`. The end is just past the first such line. |
| HorizontalRules.NormalizeOne | app/services/legacy/convert_markdown.py:157-162 | A single line is rewritten as `NormalizeLine` says: a dash rule becomes its leading whitespace and `***`. |
| HorizontalRules.NormalizeFrom | app/services/legacy/convert_markdown.py:155-162 | The loop over the body normalizes each line after the front matter. |
| HorizontalRules.NormalizeHorizontalRules | app/services/legacy/convert_markdown.py:147-165 | The normalizer is the split into lines, the per-line rewrite after the front matter, the join, and the final newline kept iff the input had one. |
| HorizontalRules.NormalizeLinesEffect | app/services/legacy/convert_markdown.py:148-164 | The line count is unchanged. Front-matter lines are copied verbatim. Every later line is `NormalizeLine` of itself: a dash rule of three or more becomes its leading whitespace and `***`, and any other line is unchanged. |
| HorizontalRules.UnclosedFrontMatterIsRule | app/services/legacy/convert_markdown.py:147-177 | A leading `---` with no closer is not front matter: it becomes `***`. |
| HorizontalRules.ThreeDashesIsRule | app/services/legacy/convert_markdown.py:158 | A line that strips to `---` is a dash rule. |
| HorizontalRules.NoFrontMatterAfter | app/services/legacy/convert_markdown.py:168-177 | Normalizing text with no front matter does not create any. |
| HorizontalRules.NormalizeLineIdempotent | app/services/legacy/convert_markdown.py:157-162 | Rewriting a line twice is rewriting it once. |
| HorizontalRules.NormalizeLinesIdempotent | app/services/legacy/convert_markdown.py:147-165 | Normalizing the lines twice is normalizing them once, front matter included. |
| HorizontalRules.NormalizeLinesNoBreak | app/services/legacy/convert_markdown.py:157-162 | Normalized lines never contain a line boundary. |
| HorizontalRules.NormalizeKeepsLines | app/services/legacy/convert_markdown.py:147-165 | Re-splitting the normalized text gives the normalized lines, so the line count is kept. The output ends in `\n` iff the input does. |
| Blockquotes.InjectAttributionToBlockquotes | app/services/legacy/convert_markdown.py:107-144 | The nested while loops give the specification `InjectText`. |
| Blockquotes.CollectBlock | app/services/legacy/convert_markdown.py:125-128 | The inner loop collects the maximal run of quote lines from `start`. It stops at the end or at the first non-quote line. |
| Blockquotes.CloseRun | app/services/legacy/convert_markdown.py:130-137 | The block is kept as is when its last ten lines, joined by `\n`, show `\begin{flushright}`, `\QuoteAttribution` or a non-empty marker. Otherwise the five snippet lines are appended. |
| Blockquotes.InjectBlocks | app/services/legacy/convert_markdown.py:107-144 | The output's quote runs are the input's runs, each closed by `CloseBlock`. |
| Blockquotes.InjectNonQuotes | app/services/legacy/convert_markdown.py:141-142 | Non-quote lines pass through unchanged and in order. |
| Blockquotes.InjectLength | app/services/legacy/convert_markdown.py:113-138 | Output line count = input line count + 5 × the number of unmarked blocks. |
| Blockquotes.InjectIdempotent | legacy_scripts/convert_md_to_pdfs-v3.6.py:162-214 | Running the injector twice on lines is running it once. Every snippet line is a quote, and the snippet carries `\begin{flushright}`. |
| Blockquotes.InjectTextIdempotent | legacy_scripts/convert_md_to_pdfs-v3.6.py:162-214 | The same for text, for a one-line attribution. |
| Blockquotes.LegacyMarkersSpec | legacy_scripts/convert_md_to_pdfs-v3.6.py:194-203 | The command-line copy finds a marker iff the non-empty attribution or the non-empty default attribution occurs in the tail. Empty markers are ignored. |
| Blockquotes.AppMarkersSpec | app/services/legacy/convert_markdown.py:130-135 | The web-service copy finds a marker iff the attribution is non-empty and occurs in the tail. |
| Symbols.SanitizeSymbols | app/services/legacy/convert_markdown.py:90-93 | One `replace` per table entry, in table order, then deletion of U+10000..U+10FFFF. This equals the per-code-point description `Sanitize`. |
| Symbols.SanitizeClean | app/services/legacy/convert_markdown.py:25-32 | The output holds no supplementary-plane code point and none of ☐ ☑ 🔘 ⚪ ⬜. |
| Symbols.SanitizeUnchanged | app/services/legacy/convert_markdown.py:90-93 | BMP text without those glyphs is unchanged. |
| Symbols.SanitizeIdempotent | app/services/legacy/convert_markdown.py:90-93 | Sanitizing twice is sanitizing once. |
| Symbols.SanitizeConcat | app/services/legacy/convert_markdown.py:90-93 | The sanitizer distributes over concatenation. |
| Symbols.RadioButtonKept | legacy_scripts/convert_md_to_pdfs-v3.6.py:41-54 | 🔘 becomes `(●)` because replacement runs before deletion. Other astral code points vanish. |
| Conversion.WithNoticeSpec | app/services/legacy/convert_markdown.py:96-104 | The bold notice is prepended iff it is absent. The result always holds it and ends with the input. Adding it twice is adding it once. |
| Conversion.InjectAttribution | app/services/legacy/convert_markdown.py:96-104 | `_inject_attribution` is the notice if absent, then the injector with the attribution as the only marker. |
| Conversion.ConvertMarkdownText | app/services/legacy/convert_markdown.py:41-45 | The web-service chain: disclaimer and inject, then normalize, strip and sanitize. |
| Conversion.AppOutputClean | app/services/legacy/convert_markdown.py:41-45 | The web-service output has no supplementary-plane code point and none of the table glyphs. |
| Conversion.AppLosesFrontMatter | app/services/legacy/convert_markdown.py:42-43 | Front matter opening an input without the notice is destroyed: after the disclaimer its opening `---` is line 2, and the normalizer makes it `***`. |
| Conversion.AddAttributionToBlockquotes | legacy_scripts/convert_md_to_pdfs-v3.6.py:383-392 | The command-line chain: inject with both markers, normalize, add the notice if absent, strip with the descriptive log, and sanitize. |
| Conversion.LegacyOutputClean | legacy_scripts/convert_md_to_pdfs-v3.6.py:383-392 | The command-line output is clean of astral code points and table glyphs. Before sanitizing, it is the normalized text with the notice, minus ordered, valid image spans. Log entry k is the descriptive line for span k. |
| Conversion.LegacyKeepsFrontMatter | legacy_scripts/convert_md_to_pdfs-v3.6.py:383-385 | Front matter opening the input, with no quote line in it, is kept verbatim by inject-then-normalize. |
| Sidecar.DefaultAttribution | legacy_scripts/convert_md_to_pdfs-v3.6.py:17-20 | The default is the stripped environment value when non-empty, else `大学 年度 試験科目不明`. It is never empty. |
| Sidecar.BuildAttribution | legacy_scripts/convert_md_to_pdfs-v3.6.py:64-76 | The loop over the three keys gives `BuildBlockquoteAttribution`. |
| Sidecar.BuildAttributionShape | legacy_scripts/convert_md_to_pdfs-v3.6.py:61-76 | The label is exactly 大学名, 年度 and 試験科目 parts, in this order, joined by single spaces. |
| Sidecar.PartSpec | legacy_scripts/convert_md_to_pdfs-v3.6.py:68-75 | A part is never empty or padded. It is `不明` exactly when the field text is blank; otherwise it is the stripped field text. |
| Sidecar.BlankFieldsAreUnknown | legacy_scripts/convert_md_to_pdfs-v3.6.py:68-75 | A missing key, `None`, or a whitespace-only string reads as `不明`. |
| Sidecar.AttributionNonEmpty | legacy_scripts/convert_md_to_pdfs-v3.6.py:64-76 | The label is never empty. |
| Sidecar.LoadMetadataFallback | legacy_scripts/convert_md_to_pdfs-v3.6.py:118-128 | The loop over the lines gives `ReadFallback`. |
| Sidecar.ReadOne | legacy_scripts/convert_md_to_pdfs-v3.6.py:119-128 | One line, as `ReadLine` says: a blank or `#` line, or one without `:`, changes nothing; otherwise a metadata key before the first `:` gets the stripped rest as a string. |
| Sidecar.ReadLinesKeys | legacy_scripts/convert_md_to_pdfs-v3.6.py:125-128 | Only the three metadata keys are ever read, and always as strings. |
| Sidecar.ReadFromAppend | legacy_scripts/convert_md_to_pdfs-v3.6.py:119-128 | Reading is a left fold over lines, so a later duplicate key overwrites an earlier one. |
| Sidecar.SkippedLine | legacy_scripts/convert_md_to_pdfs-v3.6.py:120-124 | A line without `:`, a blank line, or a `#` comment changes nothing. |
| Sidecar.ResolveBlockquoteAttribution | legacy_scripts/convert_md_to_pdfs-v3.6.py:133-159 | The conditional and its loop over the keys give `Resolve`. |
| Sidecar.MissingFromSpec | legacy_scripts/convert_md_to_pdfs-v3.6.py:145-155 | A key is reported missing iff it is a metadata key whose stripped text is empty. |
| Sidecar.ResolveSpec | legacy_scripts/convert_md_to_pdfs-v3.6.py:133-159 | A non-empty environment wins, with no missing keys. Otherwise a sidecar gives the built label, the keys with blank text as missing, each shown as `不明`. Otherwise the default is used, with all three keys missing. |
| Sidecar.NormalizeStemSpec | legacy_scripts/convert_md_to_pdfs-v3.6.py:435-437 | The result always holds `_解答解説`. A stem holding it is kept; any other gets it appended once. The rule is idempotent. |
| Pipeline.FieldOrUnknownSpec | app/services/legacy/pipeline.py:49-52 | A part is the stripped field, or `不明` when the field is missing or blank. It is never empty or padded. |
| Pipeline.FieldOrUnknownIdempotent | app/services/legacy/pipeline.py:49-52 | Feeding a part back as its field gives the same part. |
| Pipeline.AttributionTextShape | app/services/legacy/pipeline.py:47-54 | The text is university, year, subject and author parts joined by single spaces. It is never empty, so the web injector's marker check is always active. |
| Pipeline.AttributionTextNoBreak | app/services/legacy/pipeline.py:47-54 | One-line form fields give a one-line attribution. |
| Pipeline.PipelineInjectIdempotent | app/services/legacy/pipeline.py:47-54 | With one-line fields, the web injector run twice with this attribution gives the text of one run. |
| MetadataParser.ParseYamlFallback | legacy_scripts/add_metadata-v3.4.py:311-380 | The block extraction and the loop over its lines give `TryParseYamlBlock`. The block is the stripped middle of a stripped reply that starts and ends with `---` and is at least six long. A missing block or an empty parse gives none. |
| MetadataParser.ParseBlockLines | legacy_scripts/add_metadata-v3.4.py:331-378 | The loop over the block's lines ends with the data of `ParseLines` from the empty state: each line is read in order from what the lines before it left. |
| MetadataParser.ParseOne | legacy_scripts/add_metadata-v3.4.py:333-378 | One line, as `ParseLine` says. Comments and blank lines are skipped. `- item` appends a non-empty stripped item to the current list key, and is ignored without one. `key: [a, b]` and `key:` store lists and set the list key. `key: v` stores `v` and clears it. |
| MetadataParser.KeepStrippedSpec | legacy_scripts/add_metadata-v3.4.py:360-361 | Exactly the non-blank parts survive, stripped. |
| MetadataParser.SplitOnJoin | legacy_scripts/add_metadata-v3.4.py:361 | Splitting at a separator and joining with it gives the text back. |
| MetadataParser.SplitOnParts | legacy_scripts/add_metadata-v3.4.py:361 | No part holds a separator. |
| MetadataParser.SplitOnInterleave | legacy_scripts/add_metadata-v3.4.py:458 | Splitting at a set of separators gives one more piece than there are separators, and putting each separator back between its two pieces gives the text back. |
| MetadataParser.SplitOnConcat | legacy_scripts/add_metadata-v3.4.py:458 | The pieces, concatenated, are the text with every separator removed. |
| MetadataParser.SepsInSpec | legacy_scripts/add_metadata-v3.4.py:458 | The separators taken out by the split are all from the separator set. |
| MetadataParser.ParsedIsClean | legacy_scripts/add_metadata-v3.4.py:331-380 | A successful parse is a non-empty dict. Its scalars are non-empty and unpadded, and its lists hold only such strings. |
| MetadataParser.AddItem | legacy_scripts/add_metadata-v3.4.py:342-350 | A `- item` line, as `ParseLine` says: a non-empty stripped item is appended to the current list key, and the line is ignored without one. |
| MetadataParser.SetField | legacy_scripts/add_metadata-v3.4.py:352-378 | Any other line, as `ParseLine` says: `key: [a, b]` and `key:` store lists and set the list key, `key: v` stores `v` and clears it, and a line without a colon changes nothing. |
| MetadataParser.ReadValue | legacy_scripts/add_metadata-v3.4.py:358-375 | The value after the colon, as `FieldValue` says: a list exactly when it is bracketed or empty, a scalar otherwise. |
| MetadataParser.ParseLinesAppend | legacy_scripts/add_metadata-v3.4.py:333-378 | The parser is a left fold over the lines. |
| MetadataFill.YearInSpec | legacy_scripts/add_metadata-v3.4.py:427-429 | The year guess is empty iff the name holds no `19dd` or `20dd`. Otherwise it is the leftmost such four-digit substring. |
| MetadataFill.RemoveAnswerMarkSpec | legacy_scripts/add_metadata-v3.4.py:432-435 | A stem ending in `_解答解説` loses those five characters. A stem ending in a bare `解答解説` loses those four. A stem without the mark is unchanged. |
| MetadataFill.Dedupe | legacy_scripts/add_metadata-v3.4.py:447-455 | The loop with its `seen` set gives `Unique`. |
| MetadataFill.UniqueSpec | legacy_scripts/add_metadata-v3.4.py:446-454 | `Unique` has no duplicates and holds exactly the strings of the input. They are listed in the order of their first occurrences. |
| MetadataFill.IndexOf | legacy_scripts/add_metadata-v3.4.py:446 | The first-occurrence index used to state that order: the element is at that index, and `IndexOfFirst` proves no earlier index holds it. |
| MetadataFill.TakeUniqueFirst | legacy_scripts/add_metadata-v3.4.py:446-455 | Cutting the unique strings keeps the earliest: every string left out first occurs after every string kept. |
| MetadataFill.NormalizeEntityField | legacy_scripts/add_metadata-v3.4.py:444-461 | The three branches give `NormalizeEntities`. |
| MetadataFill.NormalizeEntitiesSpec | legacy_scripts/add_metadata-v3.4.py:444-461 | At most twenty strings in every case. A list gives distinct strings from it, ordered by first occurrence. Every string it drops first occurs after every one it keeps. When fewer than twenty are kept, none is dropped. A non-blank string is cut at `,` and `、`: every kept part is one of the pieces, stripped, and when fewer than twenty are kept every non-blank piece is kept. Anything else gives none. |
| MetadataFill.RequiredFields | legacy_scripts/add_metadata-v3.4.py:401-402 | Each required key is copied with `get`. |
| MetadataFill.EnforceAndFillFields | legacy_scripts/add_metadata-v3.4.py:394-463 | The whole function gives `EnforceAndFill`. |
| MetadataFill.FillIfMissing | legacy_scripts/add_metadata-v3.4.py:427-441 | One guessed field: an untruthy value under the key is replaced by the guess, and a truthy one is kept with the rest of the record. |
| MetadataFill.EnforceAndFillSpec | legacy_scripts/add_metadata-v3.4.py:394-463 | The result has exactly `REQUIRED_KEYS`. Path and time are the caller's, and question numbers are the reply's. A truthy university, year or subject is kept; an untruthy one is guessed. The entities are the normalized list. |
| MetadataFill.FillRecordSpec | legacy_scripts/add_metadata-v3.4.py:400-463 | For any guesses, the record has exactly the required keys. Path and time are the caller's. Question numbers are copied. Each of university, year and subject is kept when truthy and replaced by its guess otherwise. The entities are normalized. |
| MetadataFill.FilledEntities | legacy_scripts/add_metadata-v3.4.py:444-461 | The filled entity list is a list of at most twenty strings. |
| MetadataFill.RenderFrontMatterText | legacy_scripts/add_metadata-v3.4.py:476-492 | Appending line by line gives `RenderFrontMatter`. |
| MetadataFill.RenderFields | legacy_scripts/add_metadata-v3.4.py:477-484 | The opening `---` and then one `key: value` line for each rendered key, in the order `RenderedKeys` lists them. |
| MetadataFill.RenderEntities | legacy_scripts/add_metadata-v3.4.py:489-490 | The loop appends one `  - entity` line per entity, in order, behind the lines already there. |
| MetadataFill.RenderLinesSpec | legacy_scripts/add_metadata-v3.4.py:476-492 | There are `10 + len(entities)` lines, with `---` first and last. Line `1 + i` is the `i`-th key in fixed order, `: ` and its text. Entities are `  - e`, and a non-list entity value gives none. `None` renders as `None`. |
| AttemptSelection.AttemptOfSpec | legacy_scripts/add_metadata-v3.4.py:383-390 | An attempt records the parse, and is unknown iff the parse failed or 大学名 or 試験科目 is `None`, blank or `不明`. |
| AttemptSelection.TryReply | legacy_scripts/add_metadata-v3.4.py:514-529 | One loop pass: a blank reply or a failed parse is an unknown attempt with no data. |
| AttemptSelection.RunAttempts | legacy_scripts/add_metadata-v3.4.py:513-542 | The loop records at most three attempts. It stops right after the first known one; every earlier one is unknown. It runs all three when none is known. |
| AttemptSelection.Fallback | legacy_scripts/add_metadata-v3.4.py:544-561 | With no known attempt, the second parse is kept, else the last parse scanning back, else none. |
| AttemptSelection.SelectAttempt | legacy_scripts/add_metadata-v3.4.py:513-564 | The loop and the fallback together give `Select` on the three replies. |
| AttemptSelection.SelectKnownWins | legacy_scripts/add_metadata-v3.4.py:513-542 | When some attempt is known, the earliest known one is kept after that many calls. |
| AttemptSelection.SelectNoneKnown | legacy_scripts/add_metadata-v3.4.py:544-561 | With none known, three calls are made, and the second parse, else the third, else the first is kept. |
| AttemptSelection.SelectKeepsSomeParse | legacy_scripts/add_metadata-v3.4.py:544-561 | The kept data is one attempt's parse. There is none (the file fails) iff no attempt parsed. |
| AttemptSelection.KnownReplyWins | legacy_scripts/add_metadata-v3.4.py:538-542 | A first reply that parses with both fields known is kept after one call. |
| Reparse.RenderParseRoundTrip | legacy_scripts/add_metadata-v3.4.py:476-492 | Parsing the rendered front matter with `try_parse_yaml_block` (lines 314-380) succeeds. The result holds exactly the seven rendered keys and エンティティリスト. Each field holds the value its stripped text parses to, and a blank field comes back as `[]` (lines 367-370). The entity key holds the non-blank entities, stripped and in order. This holds when no value or entity spans lines. |
| Reparse.ReadBack | legacy_scripts/add_metadata-v3.4.py:331-378 | Key lines for any plain keys, then a list key not among them and its `- item` lines, all between `---` lines, parse to each key's value followed by the non-blank items under the list key. |
| Reparse.FieldsReadSpec | legacy_scripts/add_metadata-v3.4.py:352-378 | After the key lines, each key holds the value of its own text and no other key changes. |
| Reparse.EntityLinesParse | legacy_scripts/add_metadata-v3.4.py:342-350 | The `  - e` lines under the list key append the non-blank entities, stripped, in order, and keep the list key current. |
| Reparse.ItemLineRStrip | legacy_scripts/add_metadata-v3.4.py:314-316 | Stripping the block drops the last line's trailing whitespace. An entity line reads the same without it. |
| Reparse.BlockOf | legacy_scripts/add_metadata-v3.4.py:314-318 | The `---` block of lines between two `---` lines is those lines, with the last one right-stripped, when the first starts with a character other than whitespace and the last is not blank. |
| RoundTrip.SidecarRoundTrip | legacy_scripts/add_metadata-v3.4.py:476-492 | The converter's fallback reader (convert_md_to_pdfs-v3.6.py:118-128), applied to `render_front_matter(data) + "\n"` as written at line 583, gives exactly 大学名, 年度 and 試験科目 as the stripped `str` of each value. This holds when no value or entity spans lines. |
| Naming.NormalizedHasAnswer | app/services/legacy/generate_markdown.py:199-202 | The base name always contains `解答`. |
| Naming.NormalizedHasNoSeparator | app/services/legacy/generate_markdown.py:196-202 | The base name never holds `/` or `\`. |
| Naming.NormalizeFallback | app/services/legacy/generate_markdown.py:197 | A blank name falls back to the PDF's stem, whatever its padding. A given name makes the PDF irrelevant. |
| Naming.NormalizeIgnoresPadding | app/services/legacy/generate_markdown.py:197 | The name is stripped first, so padding never changes the result. |
| Naming.NormalizePlainName | app/services/legacy/generate_markdown.py:196-202 | A plain name (no dot, separator or padding) is kept if it holds `解答`. Otherwise it gets `_解答解説` appended. |
| Naming.FileStemPrefix | app/services/legacy/generate_markdown.py:199 | The pathlib stem is a prefix of the name, and the whole name when there is no dot. |
| Naming.KeywordAnywhereRejects | app/services/legacy/generate_markdown.py:166 | A reply holding a listed phrase anywhere is not accepted, so it is not returned before the last attempt. |
| Naming.NoLeadCharAccepted | app/services/legacy/generate_markdown.py:18-38 | A non-empty reply that uses none of the phrases' first characters is accepted. |
| Naming.PromptTitleSpec | app/services/legacy/generate_markdown.py:136 | The title is the stripped name, or the file name when the name is blank. Padding never matters, and a given name ignores the file name. |

## Left out

- File reads and writes, pandoc, sips and soffice runs, temporary directories, and the pandoc environment. Every stage is modelled on the text those would read or write.
- PyYAML. The metadata parser and the sidecar reader are modelled only on their fallback paths.
- `os.environ`: the `BLOCKQUOTE_ATTRIBUTION` value is a parameter (`None` when unset). The same goes for `_find_metadata_yaml`: what it found and loaded is a parameter.
- The relative-path computation of `enforce_and_fill_fields`, and the kanji/kana university search over the file name. Their results are parameters (`relPath`, `universityGuess`).
- The LLM calls, `call_gemini`, `_generate_with_retry`, `_extract_text`, the retry back-off, and the 80 000-character truncation of the prompt. The three replies are parameters of the attempt selection, and the replies of the web generator are the text given to `Accepted`.
- Naming.Accepted: is only the test for returning a reply early. After `MAX_RETRIES` attempts, `_generate_with_retry` returns the last non-empty reply whatever it contains (app/services/legacy/generate_markdown.py:166-175). It raises only when that reply is empty.
- The clock and time zone: `now_iso` is a parameter.
- The prompt text of `_build_prompt` beyond its title, and the PDF path of `_normalize_base_name`: its stem is a parameter.
- Console and logger output, and the signal handler of the metadata generator.
- `Values`: `repr` of strings in a list is quoted with `'` and does not escape quotes or backslashes. Floats, booleans and nested dicts are not modelled as values.
- Conversion.AppLosesFrontMatter: stated for an input that does not already hold the notice, and for a one-line attribution.
- Conversion.LegacyKeepsFrontMatter: stated for front matter holding no quote line. A quote line inside it would make the injector add lines there.
- Blockquotes.InjectTextIdempotent: needs an attribution without line boundaries. One with a line boundary would change the line structure on the second run.
- Pipeline.PipelineInjectIdempotent: needs form fields without line boundaries, for the same reason.
- RoundTrip.SidecarRoundTrip: needs values and entities without line boundaries. The reader works line by line.
- Reparse.RenderParseRoundTrip: needs values and entities without line boundaries, for the same reason.
- HorizontalRules.NormalizeKeepsLines: stated for text whose last code point is `\n` or not a line boundary. A text ending in another boundary (such as `\r`) loses that boundary in the rejoin.
- Delimiter.FindCloseIsFirstBalancedCloser: stated for distinct opener and closer, neither a backslash, as every caller passes.
