# pwndoc vulnerability dump page — a Dafny model

The page `frontend/src/pages/datas/dump/dump.js` of pwndoc imports and exports
the vulnerability database. This project models its logic and proves
properties of that model. It covers four parts of the page:

- **`formatSerpicoText`.** This turns the inline markup of a Serpico export
  (`<paragraph>`, `<bullet>`, `<bullet1>`, `<h4>`, `<indented>`, `<italics>`,
  `[[[`, `]]]`) into plain text. It does so with fourteen global literal
  substitutions followed by lodash's `_.unescape`.
  - Modules: `TextReplace` (JavaScript's `replace(/literal/g, rep)`),
    `Lodash` (`_.unescape`, and `_.escape` as its inverse), and `Serpico`.
  - `SerpicoMarkup` adds a token-level theory of well-formed markup, which
    gives the main theorem about the rewriting.
  - `SerpicoExamples` holds worked inputs.
- **`parseSerpico`.** This maps each Serpico record to one vulnerability
  record with a single detail block (`Serpico`).
- **`importVulnerabilities`.** This handles a batch of files (`Import`):
  - the per-file decision, taken from the file's extension and the shape of
    the parsed value;
  - the accumulator `this.vulnerabilities`, which an array file replaces and
    any other object appends to;
  - the `pending` counter, which triggers submission when it reaches zero.

  The page state is the class `Import.Importer`. Its `ImportVulnerabilities`
  method is the synchronous loop. `OnLoadEnd` is one `onloadend` callback,
  and reads complete one at a time, in any order.
- **`createVulnerabilities`' classification.** This is the branch on the
  server's `created` and `duplicates` counts that picks the notification and
  its colour (`Report`).

JavaScript values are modelled by `JsValue.Value`: undefined, null, booleans,
numbers, strings, arrays and objects. The module also models truthiness (the
`||` operator), `typeof … === 'object'`, and property reads. A property read
on null or undefined throws a TypeError.

Main results:
- `SerpicoMarkup.FormatTextTokens`: on well-formed markup other than the two
  language names `English` and `French`, `formatSerpicoText` translates each
  tag by its table entry and leaves no markup behind.
  Well-formed markup is a sequence of plain text and tags `<name>`, where
  neither the text nor a tag name holds `<`, `[`, `]` or `&`. So this theorem
  covers no code block and no entity. A code block is covered by
  `SerpicoExamples.CodeBlock`: `[[[x]]]` becomes `x` between two line breaks.
- Markup can still reach the output when it is not well formed
  (`SerpicoExamples.TagSurvives`) or when it was entity-escaped
  (`SerpicoExamples.EscapedMarkupSurvives`).
- `Import.AccumulateLastReplace`: a batch submits the items of the last array
  file to complete, followed by every object file completed after it.
- `Import.Importer.SubmittedIffAllCounted` and
  `Import.Importer.RejectedBlocksSubmission`: a batch is submitted exactly when
  it is non-empty and every one of its files completed without error.

### Behaviour of the code worth knowing

- **Falsy scores.** `cvssv3`, `cvssScore` and `cvssSeverity` are computed with
  `||`, not `??`. A falsy score (`0`, `""`, `false`) therefore becomes `null`
  (`Serpico.MapRecord`).
- **Missing text fields.** A Serpico record that lacks one of `references`,
  `language`, `title`, `type`, `overview`, `poc` or `remediation` does not
  produce `null`. `formatSerpicoText(undefined)` calls `replace` on
  `undefined`, so it throws, and the file is rejected
  (`SerpicoExamples.MissingFieldThrows`).
- **Detecting a Serpico export.** A JSON array counts as an export when its
  first element's `id` is truthy, not merely present. A null first element
  makes the test throw (`Import.DecideJsonArray`, `Import.DecideSerpico`).
- **Unknown extensions.** A file whose extension is neither `yml` nor `json` is
  not an error. It is logged and counted down like a successful file
  (`Import.Decide`). The extension is the text after the last dot, so a file
  named `yml` is read as YAML (`Import.ExtensionNoDot`).
- **Failed files.** A file that fails to parse, or that has the wrong shape,
  returns before `pending--`. The counter then never reaches zero, so the
  whole batch is never submitted, not just that file
  (`Import.Importer.RejectedBlocksSubmission`).
- **Empty selection.** An empty batch never submits.
- **Markup in the output.** The output of `formatSerpicoText` can hold markup:
  - removing `<h4>` from `<<h4>h4>` creates a new `<h4>`;
  - `&lt;h4&gt;` is decoded only after every substitution has run.
- **Unchanged text.** Take text other than the two language names that holds
  none of the fourteen patterns, tags or `[[[`/`]]]`. It is returned unchanged
  when it holds none of the five entities `_.unescape` decodes
  (`Serpico.FormatTextPlain`). It is changed when it holds one, because
  decoding makes it shorter (`Serpico.FormatTextEntity`).

## Model

| member | source | states |
|---|---|---|
| Serpico.FormatSerpicoText | frontend/src/pages/datas/dump/dump.js:168-172 | null is returned as null, `"English"` becomes `"en"` and `"French"` becomes `"fr"`; a string never throws and gives a string; any other value (undefined from a missing key, a number, an object) throws a TypeError |
| TextReplace.ReplaceAllAtFirst | frontend/src/pages/datas/dump/dump.js:175-194 | a global literal `replace` equals the scan JavaScript performs: the text before the first match, the replacement, then the rest of the text processed from the end of that match |
| TextReplace.ReplaceAllAbsent | frontend/src/pages/datas/dump/dump.js:175-194 | a pattern that does not occur leaves the text unchanged |
| TextReplace.ReplaceAll | frontend/src/pages/datas/dump/dump.js:175-194 | one global literal `replace`: every non-overlapping match, leftmost first, is replaced; a replacement no longer than the pattern never lengthens the text |
| TextReplace.ReplaceAllSplice | frontend/src/pages/datas/dump/dump.js:184 | a match of the pattern between `a` and `b` is replaced in place, joining `a` and `b`, when no match starts at the front of `a` and the pattern's first character occurs neither in `a` after its first character nor in `b` |
| Serpico.RewriteNoMarkup | frontend/src/pages/datas/dump/dump.js:173-194 | text holding none of the fourteen patterns is unchanged by the substitutions |
| SerpicoMarkup.ParagraphsTokens | frontend/src/pages/datas/dump/dump.js:175-176 | on well-formed markup, the paragraph rules turn every `<paragraph>` token into nothing and every `</paragraph>` token into a line break, keep every other token, and leave the markup well formed |
| SerpicoMarkup.BulletsTokens | frontend/src/pages/datas/dump/dump.js:178-179 | on well-formed markup, the bullet rules turn every `<bullet>` token into `* ` and drop every `</bullet>` token, keep every other token, and leave the markup well formed |
| SerpicoMarkup.NestedBulletsTokens | frontend/src/pages/datas/dump/dump.js:181-182 | on well-formed markup, the nested bullet rules turn every `<bullet1>` token into four spaces and `* ` and drop every `</bullet1>` token, keep every other token, and leave the markup well formed |
| SerpicoMarkup.HeadersTokens | frontend/src/pages/datas/dump/dump.js:184-185 | on well-formed markup, the header rules drop every `<h4>` and `</h4>` token, keep every other token, and leave the markup well formed |
| SerpicoMarkup.IndentedTokens | frontend/src/pages/datas/dump/dump.js:187-188 | on well-formed markup, the indentation rules turn every `<indented>` token into four spaces and drop every `</indented>` token, keep every other token, and leave the markup well formed |
| SerpicoMarkup.ItalicsTokens | frontend/src/pages/datas/dump/dump.js:190-191 | on well-formed markup, the italics rules drop every `<italics>` and `</italics>` token, keep every other token, and leave the markup well formed |
| Serpico.Paragraphs | frontend/src/pages/datas/dump/dump.js:175-176 | the paragraph rules leave text without `<` unchanged |
| Serpico.Bullets | frontend/src/pages/datas/dump/dump.js:178-179 | the bullet rules leave text without `<` unchanged |
| Serpico.NestedBullets | frontend/src/pages/datas/dump/dump.js:181-182 | the nested bullet rules leave text without `<` unchanged |
| Serpico.Headers | frontend/src/pages/datas/dump/dump.js:184-185 | the header rules leave text without `<` unchanged |
| Serpico.Indented | frontend/src/pages/datas/dump/dump.js:187-188 | the indentation rules leave text without `<` unchanged |
| Serpico.Italics | frontend/src/pages/datas/dump/dump.js:190-191 | the italics rules leave text without `<` unchanged |
| Serpico.Code | frontend/src/pages/datas/dump/dump.js:193-194 | the code rules leave text without `[` and `]` unchanged |
| Serpico.Rewrite | frontend/src/pages/datas/dump/dump.js:173-194 | the fourteen substitutions, in source order, leave text without `<`, `[` or `]` unchanged |
| Serpico.FormatText | frontend/src/pages/datas/dump/dump.js:169-198 | `"English"` becomes `"en"` and `"French"` becomes `"fr"`; any other text without `<`, `[`, `]` or `&` is returned unchanged |
| Serpico.FormatTextPlain | frontend/src/pages/datas/dump/dump.js:173-198 | text other than the two language names, holding no pattern and no entity `_.unescape` decodes, is returned unchanged |
| Serpico.FormatTextEntity | frontend/src/pages/datas/dump/dump.js:173-198 | text other than the two language names, holding no pattern but some entity `_.unescape` decodes, is returned strictly shorter, so changed |
| Lodash.Unescape | frontend/src/pages/datas/dump/dump.js:196 | `_.unescape` never lengthens the text and returns text without `&` unchanged |
| Lodash.UnescapeNoEntity | frontend/src/pages/datas/dump/dump.js:196 | `_.unescape` leaves text holding none of its five entities unchanged |
| Lodash.UnescapeEntityShortens | frontend/src/pages/datas/dump/dump.js:196 | `_.unescape` strictly shortens text holding any of its five entities |
| Lodash.UnescapeEscape | frontend/src/pages/datas/dump/dump.js:196 | `_.unescape(_.escape(s)) == s` for every string |
| SerpicoMarkup.ReplaceAllTag | frontend/src/pages/datas/dump/dump.js:175-194 | on the text of well-formed markup, replacing one tag's spelling by plain text is the same as substituting that text for every token of the tag, and the result is still well formed |
| SerpicoMarkup.RewriteTokens | frontend/src/pages/datas/dump/dump.js:175-194 | the fourteen substitutions, in their order, act on well-formed markup as the tag-by-tag translation table, and leave it well formed |
| SerpicoMarkup.TranslatedNoMarkup | frontend/src/pages/datas/dump/dump.js:175-194 | the translation of well-formed markup contains none of the fourteen patterns |
| SerpicoMarkup.FormatTextTokens | frontend/src/pages/datas/dump/dump.js:173-198 | `formatSerpicoText` of well-formed markup other than the two language names `English` and `French` is its tag-by-tag translation, and that contains none of the fourteen patterns |
| SerpicoExamples.ParagraphAndBullet | frontend/src/pages/datas/dump/dump.js:175-179 | `<paragraph>a</paragraph><bullet>b</bullet>` becomes `a`, a line break, `* ` and `b`, for all plain `a` and `b` |
| SerpicoExamples.NestedBulletAndIndent | frontend/src/pages/datas/dump/dump.js:181-188 | `<bullet1>x</bullet1><indented>y</indented>` becomes `    * x    y`, for all plain `x` and `y` |
| SerpicoExamples.CodeBlock | frontend/src/pages/datas/dump/dump.js:193-194 | `[[[x]]]` becomes `x` between two line breaks, for all plain `x` |
| SerpicoExamples.TagSurvives | frontend/src/pages/datas/dump/dump.js:184-185 | `<<h4>h4>` becomes `<h4>`, so the output can still contain a tag |
| SerpicoExamples.EscapedMarkupSurvives | frontend/src/pages/datas/dump/dump.js:196 | for text `t` without brackets whose escaped form is neither `English` nor `French`, `formatSerpicoText(_.escape(t)) == t`, so escaped markup comes out as markup |
| SerpicoExamples.EscapedTagSurvives | frontend/src/pages/datas/dump/dump.js:196 | `&lt;h4&gt;` becomes `<h4>` |
| Serpico.MapRecord | frontend/src/pages/datas/dump/dump.js:145-160 | a record converts exactly when it is not null or undefined and its seven text keys hold null or strings, else a TypeError; the three scores are the source value when truthy and null otherwise; priority and remediation complexity are null; references and the six detail fields are `formatSerpicoText` of the matching keys; there is one detail block |
| JsValue.Truthy | frontend/src/pages/datas/dump/dump.js:108-149 | ECMAScript ToBoolean, used by the `id` test and the `|| null` scores: a value is falsy exactly when it is undefined, null, `false`, `0` or `""`; every array and object is truthy |
| JsValue.TypeofObject | frontend/src/pages/datas/dump/dump.js:80 | `typeof v === 'object'` holds for null, arrays and objects, and fails exactly for undefined, booleans, numbers and strings |
| JsValue.OrNull | frontend/src/pages/datas/dump/dump.js:147-149 | a score read with a fallback to null: a truthy value is kept and any falsy one becomes null |
| JsValue.Prop | frontend/src/pages/datas/dump/dump.js:147-159 | reading a key of a value that is not null or undefined gives the key's value on an object that has it, and undefined otherwise |
| JsValue.Get | frontend/src/pages/datas/dump/dump.js:108 | a property read throws a TypeError exactly when the value is null or undefined, and otherwise gives the key's value |
| Serpico.ParseSerpico | frontend/src/pages/datas/dump/dump.js:143-166 | a successful result has one record per input record, and a failure is always a TypeError |
| Serpico.ParseSerpicoSpec | frontend/src/pages/datas/dump/dump.js:143-166 | `parseSerpico` succeeds exactly when every record converts, otherwise it throws a TypeError; the output has one record per input record, in input order, each the conversion of the record at the same position |
| Serpico.ParseSerpicoShape | frontend/src/pages/datas/dump/dump.js:150-151 | every output record has exactly one detail block and null priority and remediation complexity |
| SerpicoExamples.MissingFieldThrows | frontend/src/pages/datas/dump/dump.js:152 | a record with an id but no `references` key makes `parseSerpico` throw a TypeError |
| Import.Extension | frontend/src/pages/datas/dump/dump.js:76 | the extension holds no dot and ends the name; it is the whole name or is preceded by a dot |
| Import.ExtensionAfterDot | frontend/src/pages/datas/dump/dump.js:76 | `base.ext` has extension `ext` whenever `ext` has no dot, whatever `base` is |
| Import.ExtensionNoDot | frontend/src/pages/datas/dump/dump.js:76 | a name without a dot is its own extension |
| Import.RecognisedNames | frontend/src/pages/datas/dump/dump.js:76-103 | the tests `ext === "yml"` and `ext === "json"` accept a file exactly when its name is `yml` or `json` itself or ends in `.yml` or `.json`, case-sensitively |
| Import.ExtensionIs | frontend/src/pages/datas/dump/dump.js:76 | a name has a given dot-free extension exactly when it is that extension or ends in a dot followed by it |
| Import.SerpicoExport | frontend/src/pages/datas/dump/dump.js:108 | a JSON array is taken for a Serpico export when it is non-empty and its first element's `id` is truthy |
| Import.DecideYaml | frontend/src/pages/datas/dump/dump.js:77-101 | a `.yml` file is never skipped, and only a parsed value can replace or extend the accumulator |
| Import.DecideJson | frontend/src/pages/datas/dump/dump.js:103-131 | a `.json` file is never skipped, and only a parsed value can replace or extend the accumulator |
| Import.Decide | frontend/src/pages/datas/dump/dump.js:76-133 | a file is skipped exactly when its extension is neither `yml` nor `json`; only a parsed value can replace or extend the accumulator |
| Import.DecideUnparsable | frontend/src/pages/datas/dump/dump.js:79-100 | a parser error of a recognised file is reported and the file is not counted down |
| Import.DecideNotObject | frontend/src/pages/datas/dump/dump.js:80-88 | a parsed value whose `typeof` is not `'object'` is refused with `Invalid YAML format detected` or `Invalid JSON format detected` |
| Import.DecideObject | frontend/src/pages/datas/dump/dump.js:84-85 | null and non-array objects are appended, in either format |
| Import.DecideYamlArray | frontend/src/pages/datas/dump/dump.js:81-82 | a YAML array replaces the accumulator as it is and is never converted from Serpico |
| Import.DecideJsonArray | frontend/src/pages/datas/dump/dump.js:107-111 | a JSON array replaces the accumulator as it is when it is empty or its first element has a falsy `id`; a null or undefined first element makes the file fail with a TypeError |
| Import.DecideSerpico | frontend/src/pages/datas/dump/dump.js:108-109 | a JSON array whose first element has a truthy `id` goes through the Serpico conversion |
| Import.FromSerpico | frontend/src/pages/datas/dump/dump.js:109 | the converted array replaces the accumulator exactly when every record converts, position by position; otherwise the file fails with a TypeError |
| Import.Accumulate | frontend/src/pages/datas/dump/dump.js:82-114 | only an array file discards the accumulator; any other file keeps every earlier entry and adds at most one |
| Import.AccumulateAll | frontend/src/pages/datas/dump/dump.js:82-114 | without an array file, a batch keeps every earlier entry and adds at most one per file |
| Import.AccumulateAppendsOnly | frontend/src/pages/datas/dump/dump.js:85 | without an array file, the accumulator is what it was followed by the appended values, in completion order |
| Import.AccumulateLastReplace | frontend/src/pages/datas/dump/dump.js:82 | after an array file, the accumulator is that array followed by the values appended after it; everything before it is discarded |
| Import.CompletionOrderMatters | frontend/src/pages/datas/dump/dump.js:82-85 | an array file and an object file give both values or only the array's, depending on which read completes first |
| Import.Importer.constructor | frontend/src/pages/datas/dump/dump.js:9-13 | the page starts with an empty list and no pending files |
| Import.Importer.ImportVulnerabilities | frontend/src/pages/datas/dump/dump.js:68-141 | the accumulator is emptied and the loop counts `pending` up once per file, so before any read completes `pending` equals the number of files, with every file still being read; each file's callback is modelled by `OnLoadEnd` |
| Import.Importer.OnLoadEnd | frontend/src/pages/datas/dump/dump.js:74-135 | one completed read applies the file's decision to the accumulator; a rejected file adds a notice and leaves `pending` alone; any other file decrements `pending` by one, and reaching zero submits the accumulator |
| Import.Importer.Complete | frontend/src/pages/datas/dump/dump.js:100-135 | the state after a decision: the accumulator update, the counter and status change, the notice, and the submission at zero; it keeps the batch invariant |
| Import.Importer.SubmittedIffAllCounted | frontend/src/pages/datas/dump/dump.js:134-135 | the accumulator has been submitted, at most once, exactly when the batch is non-empty and every file completed without error |
| Import.Importer.RejectedBlocksSubmission | frontend/src/pages/datas/dump/dump.js:100 | once a file has failed, `pending` stays above zero and the batch is never submitted |
| Import.Importer.SubmittedAfterLastArray | frontend/src/pages/datas/dump/dump.js:82-135 | the submitted list is the last array file's items followed by the object files that completed after it |
| Report.Classify | frontend/src/pages/datas/dump/dump.js:38-48 | "all created" exactly when there are no duplicates (0 and 0 included); "all exist" exactly when nothing was created and some were duplicates; otherwise mixed, which for non-negative counts means both are positive |
| Report.ColourOf | frontend/src/pages/datas/dump/dump.js:37-47 | positive exactly for "all created", negative exactly for "all exist" |
| Report.NotificationColour | frontend/src/pages/datas/dump/dump.js:36-48 | for non-negative counts the notification is positive exactly when nothing was refused, negative exactly when everything was, and orange exactly when both counts are positive |

## Left out

- The YAML and JSON parsers (`YAML.safeLoad`, `JSON.parse`) are library code. The model takes their outcome as an input `Import.Loaded`: either a parsed value or the error thrown.
- `FileReader`, `readAsText` and the callback wiring are browser I/O. The model processes completion events one at a time, in any order the caller chooses. Read errors are not modelled.
- Overlapping batches are not modelled. If a second import starts while a first is still reading, both share the accumulator in the page; the model covers one batch at a time.
- `VulnerabilityService`, `UserService`, `getVulnerabilities` and `downloadVulnerabilities` are network calls or downloads with no logic of their own. So is the export through `YAML.safeDump`. No export/import round trip is stated, because no YAML implementation is available.
- `Notify.create` and `console.log` are not modelled. A notification is recorded as the error it reports (`Import.Importer.notices`).
- The message text is not modelled: the HTML of the three result messages, and the `Parsing Error: …` formatting that uses `err.mark` or `err.message`.
- The failure branch of `createVulnerabilities` is not modelled. It only shows the server's message.
- `_` is not imported by this page. `_.unescape` is modelled as lodash 4's, assuming the global `_` is lodash.
- Strings are modelled as Dafny strings, sequences of Unicode scalar values, while a JavaScript string is a sequence of UTF-16 code units. A lone surrogate, which `JSON.parse` can return, cannot be represented. The lengths in the contracts of `Lodash.Unescape`, `TextReplace.ReplaceAll` and `Serpico.FormatTextEntity` count code points, not `.length`. Every pattern, entity and extension the page tests is ASCII, so on every string the model can represent the results agree.
- NaN is not modelled: `Value.Num` is a real number, so NaN's falsiness is missing from `JsValue.Truthy`.
- Report.Classify: takes the server's counts as integers, so `=== 0` is integer equality and a count that is not a number is not modelled.
