# Malaria intake form reader — verified model

This project models, in Dafny, the core of a tool that reads scanned malaria
case-investigation forms (bilingual, Arabic and English) and turns them into
records:

- **OCR grouping** (`ocr_from_file_grouped`, `_post_ocr_image`): a PDF is
  recognised page by page. A page whose request fails contributes an error
  marker in place of its text. The pages are cut into consecutive groups of
  `group_size` pages, one per patient form, and each group's texts are joined
  with a blank line. Any other upload is recognised as a single image.
- **Form catalog** (`FORM_FIELDS` and its lookups): sixteen fields. Each has
  a key, an English and an Arabic keyword, and a section.
- **Bilingual mapper** (`FORM_STRUCTURE`, `get_combined_headers`,
  `extract_fields_from_text`, `extract_value`): spreadsheet headers of the form
  `"English / Arabic"`, and a line-scanning heuristic that takes the value after
  a label. It looks for the Arabic label first, then the English one.
- **Regex extractor** (`extract_fields_from_text` in the extractor,
  `normalize_record`): the two patterns `Patient Name[:\s]+([A-Za-z0-9 ]+)` and
  `Patient ID[:\s]+([A-Za-z0-9\-]+)` are written out as a leftmost-match
  scanner. It keeps the regex engine's greedy, backtracking treatment of the
  separator run. The in-place normaliser title-cases the patient name.
- **Validator** (`validate_record`): flags each of the two required fields as
  `"Missing"` or `"OK"`.

Modules, one per file:

- `Wrappers`: `Option` and `Result`.
- `Text`: the Python string operations the core relies on: `splitlines`,
  `split`, `strip`, `in` on strings, `join`, `str(int)`, and ASCII
  `upper` / `lower`.
- `FormStructure`, `FormMapper`, `Extractor`, `Validator` and `OcrUtils`: one
  per source file.
- `Records`: the mutable record dict shared by the extractor and the validator.

Where the code is a loop that builds a result, the model is a method with loop
invariants. That method is proved equal to a specification function, and the
properties are proved about that function. Where the code is expression-level,
the model is a function with lemmas.

The OCR service is a parameter `gateway: string -> Reply`. It gives the
service's reply to a request for the named image file, so every request is
determined by the file name the code sends (`page_<n>.png`, or the upload's
lower-cased name). Rasterising a PDF enters only as its page count.

## Model

| member | source | states |
|---|---|---|
| FormStructure.FindField | form_structure.py:30-31 | The result is None exactly when no entry has the key. Otherwise it is the first entry, in catalog order, with that key. |
| FormStructure.GetFieldByKey | form_structure.py:30-31 | The result is None exactly when the key is not among `get_all_keys()`. Otherwise it is a catalog entry with that key. |
| FormStructure.GetAllKeys | form_structure.py:33-34 | One key per catalog entry, in catalog order. |
| FormStructure.GetSectionForKey | form_structure.py:36-38 | A known key gives the section of its catalog entry. An unknown key gives "General". |
| FormStructure.KeyCount | form_structure.py:2-28 | The catalog has sixteen keys. |
| FormStructure.KeysDistinct | form_structure.py:2-28 | No two catalog entries share a key, so lookup by key is unambiguous. |
| FormStructure.LookupFindsEntry | form_structure.py:30-38 | Looking up any entry's key returns that very entry, and its section. |
| FormStructure.EntriesWellFormed | form_structure.py:2-28 | Every entry has exactly two keywords and one of the five declared sections. |
| FormStructure.EnglishKeywordsFirst | form_structure.py:2-28 | The first keyword of every entry is printable ASCII (the English label). |
| FormStructure.ArabicKeywordsSecond | form_structure.py:2-28 | The second keyword of every entry is Arabic script and spaces (the Arabic label). |
| FormMapper.FormFieldsFacts | form_mapper.py:6-21 | The form structure has eight fields, and their bilingual headers are pairwise distinct. |
| FormMapper.GetCombinedHeaders | form_mapper.py:23-29 | One header per field, taken across the sections in order, each `"<en> / <ar>"` of that field. |
| FormMapper.ScanLines | form_mapper.py:52-59 | The value found never contains a line break. |
| FormMapper.ScanLinesNoMatch | form_mapper.py:52-59 | If no remaining line contains the label, the result is "". |
| FormMapper.ScanLinesFirstMatch | form_mapper.py:52-58 | The first line containing the label decides. If it has a colon, the value is the text between the first and second colon. Otherwise the value is the next line (verbatim, even if blank), or "" when it is the last line. |
| FormMapper.ExtractValue | form_mapper.py:47-59 | The extracted value never contains a line break. |
| FormMapper.ExtractValueSpec | form_mapper.py:47-59 | Over the text's lines: no line with the label gives "". Otherwise the value is taken at the first line with the label, as above. |
| FormMapper.Header | form_mapper.py:28 | A header is the English name, then " / ", then the Arabic name, and nothing else. |
| FormMapper.Found | form_mapper.py:39-41 | The value of a field is the Arabic label's value if that is non-empty, else the English label's. It is non-empty iff either label yields a non-empty value. |
| FormMapper.FoundFromEitherLabel | form_mapper.py:39-41 | When the Arabic label is absent the English label's value is used. When the English label is absent the Arabic one's is used. |
| FormMapper.ExtractedKeysAreHeaders | form_mapper.py:42-44 | Every key stored is the header of a field visited. |
| FormMapper.ExtractedEntries | form_mapper.py:42-44 | With distinct headers: a field's header is stored iff its value is non-empty, and then it holds the stripped value. |
| FormMapper.ExtractedFormFields | form_mapper.py:36-45 | The three properties above, for the eight fields of the form structure. |
| FormMapper.ExtractFieldsFromText | form_mapper.py:31-45 | The keys are headers of the form. A field's header is present iff its value (Arabic label first, then English) is non-empty, and its entry is that value stripped. |
| Text.Lines | form_mapper.py:51 | No line contains a line break. An empty text has no lines. Joining the lines with line breaks gives back the text, minus one trailing line break. |
| Text.Contains | form_mapper.py:53 | The empty label occurs in every line, and a label longer than the line never does. |
| Text.ContainsIffSurrounded | form_mapper.py:53 | `label in line` holds exactly when the line is some text, then the label, then some more text. |
| Text.ContainsChar | form_mapper.py:53 | For a one-character string, `in` is membership of that character. |
| Text.Join | ocr_utils.py:64 | Joining no parts gives "", and joining one part gives that part. |
| Text.JoinEnds | ocr_utils.py:64 | The joined string begins with the first part, followed by the separator when there are more parts, and ends with the last part. |
| Text.Split | form_mapper.py:54 | At least one part, and no part contains the separator. There are several parts iff the text contains the separator. Joining the parts with the separator gives back the text. |
| Text.SplitAtFirst | form_mapper.py:54-56 | Splitting at the first separator gives the text before it, then the split of the rest. |
| Text.SplitFirstSegment | form_mapper.py:54-56 | The first part is everything before the first separator. |
| Text.Strip | form_mapper.py:44 | The result is a contiguous slice of the input with no whitespace at either end. |
| Text.StripNoEdgeSpace | extractor.py:14 | A string with no whitespace at either end is unchanged by stripping. |
| Records.GetOr | extractor.py:39 | `dict.get(key, default)`: the stored value if the key is present, else the default. |
| Records.Get | validator.py:10 | `dict.get(key)`: the stored value (even a falsy one) if the key is present, `None` if it is absent. A truthy result therefore means that the key is present with that value. |
| Extractor.SeparatorRun | extractor.py:12 | The length of the longest run of `[:\s]` characters at a position. |
| Extractor.ClassRunEnd | extractor.py:12 | The end of the longest run of group-class characters at a position. |
| Extractor.GroupStart | extractor.py:12 | Backtracking of the greedy `[:\s]+`: the longest separator length, up to the maximum, after which the group can begin. None when there is no such length. |
| Extractor.MatchAt | extractor.py:12 | At a fixed position: None iff no separator length admits a match. Otherwise the match uses the greedy separator length, and its group is non-empty, in class and maximal. |
| Extractor.SearchFrom | extractor.py:12 | From a position on: the leftmost position that admits a match, or None when none does. |
| Extractor.Search | extractor.py:12-13 | `re.search`: None iff the pattern matches nowhere. Otherwise the match is at the leftmost position, with the greedy separator and a maximal group. |
| Extractor.Group | extractor.py:14 | `m.group(1)` is the text from the end of the separator run to the end of the match. It is non-empty and made only of the pattern's class characters. |
| Extractor.Capture | extractor.py:12-16 | `None` iff the pattern matches nowhere. Otherwise the group of the match `re.search` finds, stripped. |
| Extractor.CapturedNameShape | extractor.py:12-14 | A captured name has only letters, digits and spaces, and no space at either end. |
| Extractor.CapturedIdShape | extractor.py:19-21 | A captured ID is non-empty and has only letters, digits and hyphens. |
| Extractor.StripIdRun | extractor.py:19-21 | A run of ID characters has no whitespace, so `strip()` leaves it unchanged. |
| Extractor.ExtractFieldsFromText | extractor.py:5-28 | The record has exactly the two keys. Each is None iff its pattern matches nowhere, and otherwise holds the stripped capture. |
| Text.Upper | extractor.py:37 | 'a'..'z' become the corresponding 'A'..'Z' (code point minus 32). Every other character is unchanged. |
| Text.Lower | extractor.py:37 | 'A'..'Z' become the corresponding 'a'..'z' (code point plus 32). Every other character is unchanged. |
| Text.CaseRoundTrip | extractor.py:37 | For a letter, upper- and lower-casing undo each other, and its upper and lower forms differ. |
| Extractor.TitleFrom | extractor.py:37 | Same length, and non-letters are unchanged. A letter after an uncased character is upper-cased; a letter after a cased one is lower-cased. |
| Extractor.Title | extractor.py:37 | Same length, and non-letters are unchanged. A letter at the start or after a non-letter is upper-cased. A letter after a letter is lower-cased. |
| Extractor.TitleIdempotent | extractor.py:37 | Title-casing a title-cased string changes nothing. |
| Extractor.NormalizedEntries | extractor.py:36-39 | The keys are the old keys plus "patient_name", and other keys are unchanged. A truthy name is title-cased. A missing name becomes "". A present but falsy name (None or "") is kept. |
| Extractor.NormalizeIdempotent | extractor.py:30-41 | Normalising a normalised record changes nothing. |
| Extractor.NormalizeRecord | extractor.py:30-41 | Updates the caller's record in place to the normalised entries, and returns that same record. |
| Validator.ValidateRecord | validator.py:3-16 | One flag per required field, in order. A flag is "Missing" iff `rec.get(field)` is falsy, and "OK" otherwise. All flags are "OK" iff both fields hold non-empty strings. |
| OcrUtils.OcrErrorMessage | ocr_utils.py:38 | Never empty. ErrorMessage if it is truthy, else ErrorDetails if that is truthy, else "OCR Error". |
| OcrUtils.PostOcrImage | ocr_utils.py:34-40 | An HTTP failure propagates. A JSON answer fails iff IsErroredOnProcessing, with "OCR Error: " and the chosen message. Otherwise the answer's parsed text is returned. |
| OcrUtils.PageFileName | ocr_utils.py:60 | "page_", then the page number's decimal digits, then ".png". |
| Text.NatToString | ocr_utils.py:60 | At least one ASCII digit, no leading zero unless the number is 0, and the digits read left to right in base ten (`DigitsValue`) give back the number. |
| Text.NatToStringInjective | ocr_utils.py:60 | Different numbers have different decimal forms. |
| OcrUtils.PageFileNameInjective | ocr_utils.py:60 | Different pages are requested under different file names. |
| OcrUtils.ErrorMarker | ocr_utils.py:63 | "[ERROR on page ", the page number, "]: ", then the exception's message. |
| OcrUtils.PageText | ocr_utils.py:59-63 | A page contributes its recognised text when its request succeeds, and the error marker with its own page number and the failure's message when it raises. |
| OcrUtils.Merged | ocr_utils.py:64 | One entry per group, each the group's texts joined with "\n\n". |
| Text.LowerAscii | ocr_utils.py:51 | Every character lower-cased, so no 'A'..'Z' remains. |
| OcrUtils.UploadFileName | ocr_utils.py:51 | No name gives "upload". A name gives its lower-cased form, character by character. |
| OcrUtils.IsPdfName | ocr_utils.py:53 | A name is a PDF name iff it is some stem followed by ".pdf". |
| OcrUtils.PdfExtensionIgnoresCase | ocr_utils.py:51-53 | Because the name is lower-cased first, an upload counts as a PDF iff its last four characters are ".pdf" in any ASCII case. |
| OcrUtils.Chunks | ocr_utils.py:55-56 | Every group holds between 1 and `group_size` items. |
| OcrUtils.ChunksCount | ocr_utils.py:55-56 | There are ceil(n / group_size) groups, so no pages give no groups. |
| OcrUtils.ChunksFlatten | ocr_utils.py:55-56 | The groups, concatenated, are the pages in their original order: no page is lost, repeated or reordered. |
| OcrUtils.ChunkAt | ocr_utils.py:55-56 | Group k is the slice of items from k*g up to min((k+1)*g, n). |
| OcrUtils.ChunkSizes | ocr_utils.py:55-56 | Every group but the last has exactly `group_size` pages. The last has between 1 and `group_size`. |
| OcrUtils.GroupedPageNumber | ocr_utils.py:58-63 | Item j of form k exists iff k*g + j < n and j < g, and it is the text, or the error marker, of page k*g + j + 1. |
| OcrUtils.FormDependsOnlyOnItsPages | ocr_utils.py:58-65 | A form's merged text depends only on the replies for its own pages, so a failing page cannot disturb another form. |
| OcrUtils.OcrPageRange | ocr_utils.py:58-63 | The inner loop asks for pages first+1 .. last in order and yields exactly those pages' texts or error markers. |
| OcrUtils.OcrPagesGrouped | ocr_utils.py:55-65 | Every page is requested once, in order. The results are the groups of page texts, each joined with a blank line. |
| OcrUtils.OcrFromFileGrouped | ocr_utils.py:48-70 | A non-PDF name makes one request under the lower-cased name, and its failure propagates. A PDF with group size 0 raises the `range` ValueError. A negative group size yields no forms. A positive one yields the grouped, merged page texts. The group size defaults to `GROUP_SIZE`, 4. |

## Behaviour worth noting


- Label matching in `extract_value` is a case-sensitive substring test, for
  English labels too.
- After a colon, the value is only the text between the first and the second
  colon (`parts[1]`), not the whole rest of the line.
- Without a colon, the value is the immediately following line, even a blank
  one. It is not the next non-empty line. An empty value counts as not found,
  so the English label is tried next. A next line of spaces only is a
  non-empty value: the English label is not tried, and the header is stored
  with "" once the value is stripped.
- `extract_fields_from_text` in the mapper stores only the fields found, keyed
  by the eight headers of `FORM_STRUCTURE`, whose name column is
  `"Name / الاسم"`. It does not store one entry per catalog field.
- `normalize_record` title-cases only a truthy patient name. It trims nothing
  else. A name that is present but `None` stays `None`.
- `validate_record` returns a flag per required field (`"Missing"` / `"OK"`),
  not a list of error strings. There is no batch variant.
- `group_size` 0 raises `ValueError` from `range`. A negative `group_size`
  yields no forms.

## Left out

- app.py (the upload interface) and reports.py (spreadsheet and document
  export) are not part of this model.
- `pdf_to_images`: rasterising is external. Only the number of pages is a
  parameter.
- The HTTP request itself: its form fields, API key, `language`, timeout and
  image encoding. The service is the `gateway` parameter, keyed by the
  requested file name. The `languages` argument only travels to the service and
  is not modelled.
- `j["ParsedResults"][0]["ParsedText"]`: an answer that is not errored is
  assumed to carry a parsed text. The `KeyError`/`IndexError` raised when it
  does not is not modelled.
- Reading and seeking the upload, and opening a non-PDF upload as an image: a
  failure there is not modelled. An upload without a `name` is `None`, giving
  "upload".
- Text.Lines: splits at `\n` only. Python's `splitlines` also breaks at `\r`,
  `\v`, `\f`, `\x1c`-`\x1e`, `\x85`, U+2028 and U+2029.
- Text.Strip: strips ASCII whitespace (`\t`-`\r`, `\x1c`-`\x1f`, space) only.
  Python also strips non-ASCII whitespace such as `\xa0`. The regex `\s` in the
  extractor is limited to the same set.
- Extractor.Title: only ASCII letters are cased. Python's `str.title` also
  cases non-ASCII letters; Arabic letters are uncased in both.
- Text.LowerAscii: lower-cases ASCII letters only, so OcrUtils.UploadFileName
  does too. Python's `str.lower` also lower-cases non-ASCII letters.
- Dict insertion order: Python dicts keep insertion order, and `map` does not.
  This loses order in the mapper's result (FormMapper.ExtractFieldsFromText) and
  in the extractor's record (Extractor.ExtractFieldsFromText, where Python puts
  `patient_name` before `patient_id`). It also loses order in the normalised
  record (Extractor.NormalizedEntries, where extractor.py:39 adds a missing
  `patient_name` at the end). The validator's flags keep their order: they are
  a sequence of pairs, in the order of the required list.
- Records: dict values are `None` or strings. Other value types are not
  modelled.
