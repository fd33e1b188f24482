# Deed-register parser of nirnai-backend, in Dafny

`TransactionsService` (`src/transactions/transactions.service.ts`) turns the text of a land-registry
encumbrance certificate into transaction records. It works in three steps:

1. It cuts the text into sections. The cut falls before every record-start marker: the English
   `"\nSr. No."` or the Tamil `வ. எண்`.
2. It drops the sections that are blank once trimmed.
3. For each remaining section, in order, it:
   - sends the section to a translation service, which falls back to the section itself when the
     call fails;
   - pulls about twenty fields out of the translated text with label patterns of the form
     `Label\s*:\s*(capture)`;
   - records the untranslated section as `originalText`.

This project models those steps and proves properties of the model.

- **JavaScript text model (`js_text.dfy`).** The white-space set that `\s` matches and that
  `trim()` removes, the line terminators that `.` does not match, the character classes of the
  patterns, and `trim()` together with a declarative characterisation of it.
- **Label pattern (`label_pattern.dfy`).** `text.match(/Label\s*:\s*(capture)/)` as an explicit
  scanner, with JavaScript's backtracking semantics:
  - the leftmost label position wins;
  - the white space after the colon is given back where the capture needs it;
  - the capture is a greedy run of a class (`\S+`, `.+`, `[\d,]+`, `[\d,\/]+`, `[\s\S]+`) or a
    lazy run up to a terminator word (`[\s\S]+?Claimants`).

  It is proved against a declarative definition of "the first match".
- **Splitting (`js_split.dfy`).** `String.prototype.split` with a regular-expression separator:
  - it follows the algorithm of `RegExp.prototype[@@split]`, including the rule that an empty
    match at the end of the previous separator does not cut;
  - it covers the three separators the parser uses. These are the marker lookahead, the ordinal
    `\d+\.\s*` and the comma `,\s*`.
- **Segmentation (`segmenter.dfy`).** Lines 43-45: the lookahead split, then the filter that drops
  blank sections.
- **Extractors (`extractors.dfy`).** `extractField`, `extractDate`, `extractNumber`, `extractNames`
  and `extractSurveyNumbers`. Each one is total and gives an absent value or an empty list when
  its pattern does not match.
- **Translation (`translation.dfy`).** The request `translateText` sends, and its fallback. The
  HTTP call's outcome is a function parameter that returns the translated text, or `None` when
  the call throws.
- **Records (`records.dfy`).** The object literal of lines 50-73, with the twenty label patterns
  of lines 51-71.
- **Parser (`transactions.dfy`).** `parseTransactions` as a method with the source's `for` loop,
  which pushes one record per section. It is proved equal to a map of the record builder over the
  sections.

In these places the code does something a reader of the labels and markers might not expect, and
the model follows the code:

- **The preamble is kept.** Text before the first marker becomes a section of its own, and a
  record is built from it (`Segmenter.PreambleIsSection`).
- **A text with no marker still gives a record.** A non-blank text with no marker is one section
  (`Segmenter.NoMarkerOneSection`).
- **Names are not trimmed one by one.** `extractNames` trims the capture as a whole and then
  splits it on ordinals. Every name except the last keeps the white space before the next
  ordinal, so "1. Ravi 2. Anu" gives "Ravi " and "Anu".
- **The Tamil marker is looser than the English one.** It is not anchored to a newline, and its
  `.` is unescaped, so it matches any one UTF-16 code unit except a line terminator. A character
  outside the Basic Multilingual Plane takes two code units, so it cannot fill that slot.
- **Survey number lists lose entries.** The survey number class `[\d,\/]` has no white space, so
  the capture of "Survey No. : 12/3, 45" stops at the comma. The result is "12/3" and an empty
  string, not both numbers (`Extractors.TrailingCommaEmptyNumber`).
- **A malformed date is not absent.** `extractDate` passes the token to the date parser whenever
  the label matches. A malformed date therefore gives whatever the parser makes of it.

## Model

| member | source | states |
|---|---|---|
| JsText.Trim | src/transactions/transactions.service.ts:83 | `trim()`: the result is a slice of the input with only white space around it, neither starting nor ending with white space; it is empty exactly when the input is all white space |
| JsText.TrimOfIsTrim | src/transactions/transactions.service.ts:83 | the characterisation of trimming determines the result: any string meeting it equals `Trim` |
| JsText.TrimBlank | src/transactions/transactions.service.ts:83 | a string that is white space on both sides of one position trims to "" |
| JsText.TrimBetween | src/transactions/transactions.service.ts:83 | a slice with only white space around it that neither starts nor ends with white space is what `trim()` returns |
| JsText.RunSlice | src/transactions/transactions.service.ts:104 | every character of a slice over a run of a class is in that class |
| JsText.TrimSlice | src/transactions/transactions.service.ts:83 | `trim()` keeps exactly what lies between the maximal leading white-space run and the maximal trailing one |
| JsText.AllSpaceRun | src/transactions/transactions.service.ts:83 | a slice made only of white space is a run of the white-space class that `trim()` removes |
| JsText.TrimNoSpace | src/transactions/transactions.service.ts:106 | trimming a string with no white space leaves it unchanged |
| JsText.KeepNonBlank | src/transactions/transactions.service.ts:45 | `filter(x => x.trim())`: no longer than its input; every kept entry has a non-space character; a string is kept exactly when it is in the input and not blank |
| JsText.KeepNonBlankOne | src/transactions/transactions.service.ts:45 | a single entry is kept exactly when it is not blank |
| JsText.KeepNonBlankAppend | src/transactions/transactions.service.ts:45 | the filter of a concatenation is the concatenation of the filters: entries keep their order and every repetition, so together with `KeepNonBlankOne` this determines the filter |
| JsText.KeepNonBlankAllKept | src/transactions/transactions.service.ts:100 | where no entry is blank, the filter returns its input unchanged |
| LabelPattern.FindFrom | src/transactions/transactions.service.ts:57 | finding the terminator word: the first position at or after the start point where it occurs, or none when it occurs nowhere from there on |
| LabelPattern.CaptureEnd | src/transactions/transactions.service.ts:51-71 | where the capture group ends when it starts at a position: the one end satisfying the group, or none when the group cannot start there |
| LabelPattern.CaptureFrom | src/transactions/transactions.service.ts:51 | backtracking of the second `\s*`: the latest capture start that succeeds, none of the later ones succeeding |
| LabelPattern.MatchAt | src/transactions/transactions.service.ts:82 | the match with its label at a given position: a match, with the latest capture start of all matches there, or none when no match has its label there |
| LabelPattern.FindMatch | src/transactions/transactions.service.ts:82 | the leftmost match from a position on; none only when no match has its label at or after it |
| LabelPattern.Match | src/transactions/transactions.service.ts:82 | `text.match(regex)`: the reported match is the first match (leftmost label, then latest capture start); none exactly when the pattern matches nowhere |
| LabelPattern.Capture | src/transactions/transactions.service.ts:82-83 | `match[1]`: absent exactly when there is no match, otherwise the text of the first match's capture |
| LabelPattern.FirstMatchUnique | src/transactions/transactions.service.ts:82 | the first match is determined: two matches that are both first are equal |
| JsSplit.MarkerAt | src/transactions/transactions.service.ts:44 | the two alternatives of the lookahead: the English marker with its leading newline, or the Tamil one |
| JsSplit.TamilMarkerAt | src/transactions/transactions.service.ts:44 | the Tamil alternative `வ. எண்`: no newline before it, and in place of the unescaped `.` one code unit that is not a line terminator, so a character outside the Basic Multilingual Plane (two code units) does not fit |
| JsSplit.WideCharNoMarker | src/transactions/transactions.service.ts:44 | a character outside the Basic Multilingual Plane right after a position rules out a marker there |
| JsText.IsOneCodeUnit | src/transactions/transactions.service.ts:44 | a character JavaScript stores as one UTF-16 code unit, which is all a single `.` consumes without the `u` flag |
| JsSplit.SepEnd | src/transactions/transactions.service.ts:44 | where each separator matching at a position ends; the lookahead is the only one that matches the empty string |
| JsSplit.IsOrdinalAt | src/transactions/transactions.service.ts:100 | a `\d+\.\s*` match: digits, a full stop, then the longest run of white space |
| JsSplit.IsSepMatch | src/transactions/transactions.service.ts:100 | what a match of each separator consists of, as its regular expression defines it: the empty lookahead at a marker, an ordinal, or a comma followed by the longest run of white space |
| JsSplit.SepEndIsMatch | src/transactions/transactions.service.ts:106 | `SepEnd` reports a match exactly when the regular expression matches there, and then the one end such a match can have |
| JsSplit.SplitFrom | src/transactions/transactions.service.ts:44 | the split scan: at least one piece, and no piece holds a separator match except a lookahead at its start; where the scan cuts is fixed by `SplitFromSkip`, `SplitFromCut` and, for ordinals, `OrdinalPiecesStart` and `OrdinalPiecesEnd` |
| JsSplit.Split | src/transactions/transactions.service.ts:100 | `s.split(regex)`: at least one piece, each free of separator matches except a lookahead at its start; `SplitWeave` and `OrdinalPieces` state how the pieces sit in the string |
| JsSplit.SplitFromSkip | src/transactions/transactions.service.ts:44 | where the separator does not cut at the scan position, the scan moves on with the same pieces and separators to come |
| JsSplit.SplitFromCut | src/transactions/transactions.service.ts:44 | where the separator cuts at the scan position, the next piece ends there and the scan resumes after the separator |
| JsSplit.SkipRun | src/transactions/transactions.service.ts:44 | a stretch where the separator matches nowhere adds no cut |
| JsSplit.SplitFromWeave | src/transactions/transactions.service.ts:44 | the pieces from a scan position, with the separators between them, rebuild the rest of the string |
| JsSplit.SplitWeave | src/transactions/transactions.service.ts:106 | splitting loses nothing: one more piece than separators, and pieces and separators woven together give the string back |
| JsSplit.CommaSepsBare | src/transactions/transactions.service.ts:106 | on a string without white space every `,\s*` separator is a bare comma |
| JsSplit.IsOrdinalText | src/transactions/transactions.service.ts:100 | the text an ordinal separator removes: digits, a full stop, then white space only |
| JsSplit.OrdinalSliceText | src/transactions/transactions.service.ts:100 | the text of an ordinal match is such a separator text |
| JsSplit.OrdinalSepsFrom | src/transactions/transactions.service.ts:100 | every separator the ordinal split scan removes is digits, a full stop and white space |
| JsSplit.DigitExtendsOrdinal | src/transactions/transactions.service.ts:100 | a digit just before an ordinal match also starts one, since `\d+` can begin there |
| JsSplit.NoDigitBeforeCut | src/transactions/transactions.service.ts:100 | where the ordinal scan cuts, the character before the cut is not a digit |
| JsSplit.FirstPiecePrefix | src/transactions/transactions.service.ts:44 | the first piece of a split from `p` on is a prefix of the text from `p` |
| JsSplit.LaterPiecesStartClean | src/transactions/transactions.service.ts:100 | no piece after the first starts with white space |
| JsSplit.EarlierPiecesEndClean | src/transactions/transactions.service.ts:100 | no piece before the last ends with a digit |
| JsSplit.OrdinalPiecesStart | src/transactions/transactions.service.ts:100 | the ordinal separator takes all the white space after its full stop, so no later piece starts with white space |
| JsSplit.OrdinalPiecesEnd | src/transactions/transactions.service.ts:100 | the ordinal separator starts at the first digit of its number, so no piece that a separator follows ends with a digit |
| JsSplit.OrdinalPieces | src/transactions/transactions.service.ts:100 | for `split(/\d+\.\s*/)`: the first piece is a prefix of the string, no later piece starts with white space, and no piece before the last ends with a digit |
| JsSplit.OrdinalSeparators | src/transactions/transactions.service.ts:100 | the ordinal split cuts only at `\d+\.\s*` matches: the pieces with those separators between them rebuild the string, and every separator is digits, a full stop and white space |
| Segmenter.RawSections | src/transactions/transactions.service.ts:43-44 | the lookahead split yields at least one piece |
| Segmenter.Sections | src/transactions/transactions.service.ts:43-45 | every section is non-blank; a string is a section exactly when it is a non-blank piece of the split (their order and repetitions follow from `JsText.KeepNonBlankAppend`) |
| Segmenter.MarkerNoOverlap | src/transactions/transactions.service.ts:44 | two markers never overlap |
| Segmenter.SplitCutsAtMarkers | src/transactions/transactions.service.ts:44 | every piece after the first begins with a marker, and no piece holds a marker past its first character |
| Segmenter.SplitLosesNothing | src/transactions/transactions.service.ts:43-44 | the pieces concatenated in order are the text |
| Segmenter.NoMarkerOneSection | src/transactions/transactions.service.ts:43-45 | a text with no marker past its first character is one piece; one section when non-blank, none when blank |
| Segmenter.PreambleIsSection | src/transactions/transactions.service.ts:43-45 | with the first marker at a position after the start, the text before it is the first piece, and the first section unless blank |
| Segmenter.BlankTextNoSections | src/transactions/transactions.service.ts:45 | a blank text has no section |
| Extractors.CaptureInClass | src/transactions/transactions.service.ts:104 | the capture of a `(class+)` pattern is non-empty and every character is in the class |
| Extractors.ExtractField | src/transactions/transactions.service.ts:81-84 | absent exactly when the pattern does not match; otherwise the first match's capture trimmed |
| Extractors.ExtractDate | src/transactions/transactions.service.ts:86-89 | absent exactly when the pattern does not match; otherwise the date parser applied to the trimmed capture |
| Extractors.StripCommas | src/transactions/transactions.service.ts:93 | `replace(/,/g, '')`: no comma is left, every other character stays, and a string without commas is returned unchanged (with `StripCommasAppend` this determines the result) |
| Extractors.ParseFloat | src/transactions/transactions.service.ts:93 | on a digit string, NaN exactly when it is empty |
| Extractors.ExtractNumber | src/transactions/transactions.service.ts:91-94 | absent exactly when the pattern does not match; otherwise the number spelled by the capture's digits with the commas removed, or NaN when the capture has no digit |
| Extractors.StripCommasAppend | src/transactions/transactions.service.ts:93 | stripping commas distributes over concatenation |
| Extractors.ThousandsSeparatorIgnored | src/transactions/transactions.service.ts:61-62 | a comma anywhere among the digits does not change the value read |
| Extractors.ToDecimal | src/transactions/transactions.service.ts:93 | the decimal spelling of a number is a non-empty digit string |
| Extractors.DecimalRoundTrip | src/transactions/transactions.service.ts:93 | reading the decimal spelling of a number gives that number back |
| Extractors.OrdinalSepAt | src/transactions/transactions.service.ts:100 | the ordinal separator matches wherever a digit is followed by a full stop |
| Extractors.CleanNoOrdinal | src/transactions/transactions.service.ts:100 | a piece of the ordinal split has no digit followed by a full stop |
| Extractors.ExtractNames | src/transactions/transactions.service.ts:96-101 | empty when the pattern does not match; each entry is non-blank and has no ordinal; an entry is present exactly when it is a non-blank piece of the trimmed capture split on ordinals |
| Extractors.NamesBetweenOrdinals | src/transactions/transactions.service.ts:99-100 | on a match, the names are the filter of the ordinal pieces of the trimmed capture, so in their order; those pieces, with the removed separators between them, rebuild the trimmed capture; every separator is digits, a full stop and white space; no piece starts with white space, and none before the last ends with a digit |
| Extractors.NamesStartWithText | src/transactions/transactions.service.ts:99-100 | no name starts with white space; only its end may keep the white space before the next ordinal |
| Extractors.TrimEach | src/transactions/transactions.service.ts:106 | `map(x => x.trim())`: same length, each entry the trimmed counterpart |
| Extractors.CountCharAppend | src/transactions/transactions.service.ts:106 | counting a character distributes over concatenation |
| Extractors.CountCharAbsent | src/transactions/transactions.service.ts:106 | a character that does not occur is counted zero times |
| Extractors.WeaveCommas | src/transactions/transactions.service.ts:106 | comma-free pieces woven with commas are their comma join, with as many commas as separators |
| Extractors.SurveySplit | src/transactions/transactions.service.ts:106 | the comma split of a run of digits, commas and slashes has one more token than commas, tokens of digits and slashes only, and joins back to the run |
| Extractors.ExtractSurveyNumbers | src/transactions/transactions.service.ts:103-107 | empty when the pattern does not match; otherwise one more token than the capture has commas, tokens of digits and slashes only, and joining them with commas gives the capture |
| Extractors.JoinLast | src/transactions/transactions.service.ts:106 | a join of two or more entries ends with the separator and the last entry |
| Extractors.EndsWithCommaLastEmpty | src/transactions/transactions.service.ts:106 | when a comma join ends with a comma, its last token (digits and slashes only) is empty |
| Extractors.TrailingCommaEmptyNumber | src/transactions/transactions.service.ts:104-106 | a survey capture ending with a comma gives at least two tokens, the last of them empty |
| Translation.RequestFor | src/transactions/transactions.service.ts:20-29 | the request carries the text, source language "ta", the target language and format "text" |
| Translation.TranslateText | src/transactions/transactions.service.ts:18-38 | when the call fails the input text comes back unchanged; otherwise the translated text |
| Records.FieldFrom | src/transactions/transactions.service.ts:81-84 | a text field is absent exactly when its pattern does not match, and otherwise is the capture trimmed |
| Records.DateFrom | src/transactions/transactions.service.ts:86-89 | a date field is absent exactly when its pattern does not match, and otherwise is the date made from the trimmed capture |
| Records.NumberFrom | src/transactions/transactions.service.ts:91-94 | a number field is absent exactly when its pattern does not match, `NaN` for a capture without a digit, and otherwise the number its digits spell |
| Records.NamesFrom | src/transactions/transactions.service.ts:96-101 | a names field is empty when its pattern does not match, and otherwise the non-blank ordinal pieces of the trimmed capture |
| Records.SurveyNumbersFrom | src/transactions/transactions.service.ts:103-107 | the survey numbers are empty when "Survey No." does not match, and otherwise one token more than the capture has commas, each digits and slashes, joining back to the capture |
| Records.ExtractFieldFrom | src/transactions/transactions.service.ts:81-84 | `extractField` gives what `FieldFrom` describes |
| Records.ExtractDateFrom | src/transactions/transactions.service.ts:86-89 | `extractDate` gives what `DateFrom` describes |
| Records.ExtractNumberFrom | src/transactions/transactions.service.ts:91-94 | `extractNumber` gives what `NumberFrom` describes |
| Records.ExtractNamesFrom | src/transactions/transactions.service.ts:96-101 | `extractNames` gives what `NamesFrom` describes |
| Records.ExtractSurveyNumbersFrom | src/transactions/transactions.service.ts:103-107 | `extractSurveyNumbers` gives what `SurveyNumbersFrom` describes |
| Records.ExtractRecord | src/transactions/transactions.service.ts:50-73 | `originalText` is the given text, and each of the 21 fields is tied to its own pattern alone: every optional field is absent exactly when its pattern does not match and otherwise holds the trimmed capture, the date made from it or the number it spells; each list is empty when its pattern does not match and otherwise the names or survey numbers of the capture; names are non-blank without ordinals, and survey numbers are digits and slashes |
| Records.BuildRecord | src/transactions/transactions.service.ts:48-73 | the record of a section keeps the untranslated section as `originalText`, whatever the translation returned |
| Records.BuildRecordCases | src/transactions/transactions.service.ts:48-73 | on a failed translation the fields come from the section itself, otherwise from the translated text |
| Records.RecordIsolated | src/transactions/transactions.service.ts:47-76 | a section's record depends only on the translation outcome for that section |
| Transactions.MapSections | src/transactions/transactions.service.ts:47-76 | one record per section |
| Transactions.MapSectionsAt | src/transactions/transactions.service.ts:47-76 | record `k` is the record built from section `k`: the order is kept |
| Transactions.MapSectionsSnoc | src/transactions/transactions.service.ts:75 | adding a section appends its record at the end |
| Transactions.ParseTransactions | src/transactions/transactions.service.ts:40-79 | the loop returns exactly the record builder mapped over the sections, in order |
| Transactions.ParsedRecordsKeepSections | src/transactions/transactions.service.ts:72 | one record per section, and record `i`'s `originalText` is section `i` before translation, never blank |

## Patterns and record

The constants and the datatype below carry no contract; they are the data the rows above work on.

| declaration | source | models |
|---|---|---|
| Records.Transaction | src/transactions/transactions.service.ts:50-73 | `TransactionDto`: the 21 extracted fields, optional or list-valued as the extractors give them, and `originalText` |
| Records.SerialNumberPattern | src/transactions/transactions.service.ts:51 | label "Sr. No.", capture `\S+` |
| Records.DocumentNumberPattern | src/transactions/transactions.service.ts:52 | label "Document No.", capture `\S+` |
| Records.ExecutionDatePattern | src/transactions/transactions.service.ts:53 | label "Execution Date", capture `\S+` |
| Records.PresentationDatePattern | src/transactions/transactions.service.ts:54 | label "Presentation Date", capture `\S+` |
| Records.RegistrationDatePattern | src/transactions/transactions.service.ts:55 | label "Registration Date", capture `\S+` |
| Records.NaturePattern | src/transactions/transactions.service.ts:56 | label "Nature", capture `.+` |
| Records.ExecutantsPattern | src/transactions/transactions.service.ts:57 | label "Executants", capture `[\s\S]+?Claimants` |
| Records.ClaimantsPattern | src/transactions/transactions.service.ts:58 | label "Claimants", capture `[\s\S]+?Volume` |
| Records.VolumeNumberPattern | src/transactions/transactions.service.ts:59 | label "Volume No.", capture `\S+` |
| Records.PageNumberPattern | src/transactions/transactions.service.ts:60 | label "Page No.", capture `\S+` |
| Records.ConsiderationValuePattern | src/transactions/transactions.service.ts:61 | label "Consideration Value", capture `[\d,]+` |
| Records.MarketValuePattern | src/transactions/transactions.service.ts:62 | label "Market Value", capture `[\d,]+` |
| Records.PrNumberPattern | src/transactions/transactions.service.ts:63 | label "PR Number", capture `\S+` |
| Records.DocumentRemarksPattern | src/transactions/transactions.service.ts:64 | label "Document Remarks", capture `[\s\S]+?Property Type` |
| Records.PropertyTypePattern | src/transactions/transactions.service.ts:65 | label "Property Type", capture `.+` |
| Records.PropertyExtentPattern | src/transactions/transactions.service.ts:66 | label "Property Extent", capture `.+` |
| Records.VillagePattern | src/transactions/transactions.service.ts:67 | label "Village", capture `.+` |
| Records.StreetPattern | src/transactions/transactions.service.ts:68 | label "Street", capture `.+` |
| Records.PlotNumberPattern | src/transactions/transactions.service.ts:70 | label "Plot No.", capture `\S+` |
| Records.ScheduleRemarksPattern | src/transactions/transactions.service.ts:71 | label "Schedule Remarks", capture `[\s\S]+` |
| Extractors.SurveyNumberPattern | src/transactions/transactions.service.ts:104 | label "Survey No.", capture `[\d,\/]+` |
| JsSplit.EnglishMarker | src/transactions/transactions.service.ts:44 | the English alternative `\nSr\. No\.` of the lookahead |
| JsSplit.TamilMarkerTail | src/transactions/transactions.service.ts:44 | the part of the Tamil alternative after `வ.`: a space and `எண்` |

## Left out

- PDF text extraction (`extractTextFromPdf`, lines 13-16): a call into a foreign library.
- The HTTP call (lines 20-33): network I/O. Only its outcome is modelled, as a function
  parameter that gives the translated text or `None` when the call throws.
- TranslateText: a response without `translatedText` is not modelled. The source would then
  return `undefined` rather than the input text. The first `extractField` call would then throw
  at `text.match` (line 82), so the whole `parseTransactions` call would reject, not just that
  section's record. The model's service gives a string or nothing, so it never reaches this.
- Logging the translation error (line 35): output only.
- ExtractDate: the JavaScript `Date` constructor is a function parameter. Its parsing and the
  Invalid Date it makes of a malformed token are not modelled.
- ExtractNumber: `parseFloat` is modelled only on the digit strings a `[\d,]+` capture leaves
  behind once its commas are removed. The value is an unbounded natural number, so the rounding
  of very long figures to a double is not modelled.
- ParseTransactions: the `await` on each translation is treated as a plain sequential call. The
  service is fixed for the whole call, so it cannot answer the same section differently at
  different times.
- `saveTransactions` and `searchTransactions` (lines 109-177): database persistence and query
  building.
- The table schema, the DTO validation decorators, and the NestJS controller, module and bootstrap
  files: declarations and framework wiring, with no logic of the parser in them.
