# Passport MRZ extraction: a Dafny model of the post-processing core

The system reads passports from images and PDF pages and turns each one into a record. An outside region detector (PassportEye) finds the machine-readable zone (MRZ) and parses its fields. An outside OCR engine (EasyOCR) reads the zone's two text lines. The core modelled here is the deterministic part between them:

- the **line normaliser**, which makes a line exactly 44 characters of `A`–`Z`, `0`–`9` and `<`;
- the **field cleaners**: the sex code, alphanumeric codes, country names and dates;
- the **reconciliation** of line 2 with the detector's sex code;
- the **assembly** of the record dictionary;
- the **page loop** over a PDF, with its second normalisation of the 88-character MRZ string;
- the **validator**, which lists the issues of a record.

Modules follow the source files:

- `Utils` (`utils.dfy`) is `src/utils.py`.
- `Validators` (`validators.dfy`) is `src/validators.py`.
- `Extractor` (`extractor.dfy`) is the `extract_mrz_from_roi`, `get_data` and `process_pdf` logic of `src/extractor.py`.
- The supporting modules are:
  - `Text` (`text.dfy`): the Python string built-ins the core uses, over ASCII;
  - `Dates` (`dates.dfy`): `strftime('%d/%m/%Y')` and `strptime(…, '%d/%m/%Y')`;
  - `Wrappers` (`wrappers.dfy`): `Option`.

Modelling choices:

- Pure code is functions.
- The sex correction edits a list in place. It is a method over an `array<string>` that is then joined by a loop.
- `get_data`, `process_pdf` and `validate_passport_data` are methods whose loops and key-by-key updates are proved equal to specification functions:
  - `GetData` against `RecordOf`;
  - `ProcessPdf` against `PdfRecords`;
  - `ValidatePassportData` against `Issues`.
  The properties the system promises are then proved about those functions.

Outside collaborators become inputs:

- The detector's parse is `Option<RegionParse>`, with every field an `Option<string>`.
- The OCR result is `OcrOutcome`: the list of lines, or a failure standing for any exception in `extract_mrz_from_roi`.
- The PDF renderer's result is `Option<seq<Page>>`.
- `dateutil.parser.parse` is a parameter `string -> Option<CalendarDate>`.
- The country table is a parameter `seq<Country>`.
- Whether the image file exists, and its base name, are parameters.

A record is a `map<Key, string>`. `Key` names the twelve dictionary keys, and `KeyName` gives their Python spelling; it is proved injective. Python truthiness is written out:

- `Truthy` for optional strings;
- `IsFalsy` for optional records (`None` or `{}`).

`str(None) == "None"` is written out as `PyStr`. This matters for `get_country_name` and for the unguarded `parse_date(mrz.expiration_date)`.

Behaviour of the code worth knowing:

- `clean_mrz_line("")` is `""` (`src/utils.py:41-42`); any other line becomes 44 characters. `CleanMrzLine` states both cases.
- Fewer than two OCR lines still give a record, whose MRZ string is `""` (`src/extractor.py:88-90`, `119`, `138`). `RecordOf` states this.
- The sex code `0` becomes `M` (`src/utils.py:70-71`); any other code is returned uppercased.
- `SpecimenLines` uses the specimen lines of ICAO Doc 9303.

## Model

| member | source | states |
|---|---|---|
| Utils.CleanMrzLine | src/utils.py:39-55 | an empty line gives `""`; any other line gives exactly 44 characters of the MRZ alphabet; the characters kept (uppercased, spaces removed, filtered) come first in order, and fillers follow when fewer than 44 were kept |
| Utils.MrzFilteredIsUpperFilter | src/utils.py:44-48 | removing spaces before filtering to the alphabet changes nothing: the kept text is the uppercased line filtered to the alphabet |
| Utils.MrzFilteredConcat | src/utils.py:44-48 | the filtering step distributes over concatenation, so kept characters keep their relative order |
| Utils.MrzFilteredChar | src/utils.py:44-48 | a single character is kept, uppercased, exactly when its uppercase form is in the alphabet |
| Utils.CleanMrzLineFixpoint | src/utils.py:39-55 | a 44-character line already in the alphabet is returned unchanged |
| Utils.CleanMrzLineIdempotent | src/utils.py:39-55 | normalising a normalised line changes nothing |
| Utils.MrzTextConcat | src/extractor.py:138 | two lines in the MRZ alphabet joined are in the alphabet |
| Utils.CleanString | src/utils.py:33-37 | `""` for a missing or empty text; otherwise the alphanumeric characters of the uppercased text, in order, each an uppercase letter or a digit |
| Utils.CleanStringIdempotent | src/utils.py:33-37 | cleaning a cleaned text changes nothing |
| Utils.CleanStringExample | tests/test_extractor.py:17 | `"Hello 123!"` becomes `"HELLO123"` |
| Utils.GetSex | src/utils.py:65-72 | `""` for a missing code, `M` for `0`, otherwise the uppercased code |
| Utils.GetSexIsMaleOrFemale | src/utils.py:65-72 | the result is `M` exactly for `m`, `M` and `0`, and `F` exactly for `f` and `F` (both directions) |
| Utils.GetSexIdempotent | src/utils.py:65-72 | standardising a standardised code changes nothing |
| Utils.FindAlpha3 | src/utils.py:60-62 | the first table position whose alpha-3 code matches, with no earlier match; none only when no entry matches |
| Utils.GetCountryName | src/utils.py:57-63 | the uppercased name of the first entry whose code is the uppercased `str()` of the input; the uppercased code itself when no entry matches |
| Utils.ParseDate | src/utils.py:20-31 | when the date parser accepts `str(obj)`, the result is zero-padded `DD/MM/YYYY` text (digits everywhere except the two slashes) that `strptime('%d/%m/%Y')` reads back as that same date; otherwise the result is `str(obj)` unchanged |
| Dates.FormatThenParse | src/utils.py:28 | a formatted date splits as two-digit day, two-digit month and four-digit year naming the same date, and `strptime` accepts it |
| Dates.FormatDMY | src/utils.py:28 | the formatted date is 10 characters with `/` at positions 2 and 5 and a digit at every other position |
| Dates.TokenValue | src/validators.py:25 | a `%d` or `%m` token stands for a number from 1 to 31 |
| Text.Strip | src/extractor.py:124-125 | `strip()` returns a contiguous piece of the text with no whitespace at either end |
| Text.StripRemovesSpaces | src/extractor.py:124-125 | everything `strip()` cuts off before and after the piece it keeps is whitespace |
| Text.ReplaceDoubleFiller | src/extractor.py:124-125 | after `replace("<<", " ")` no two adjacent fillers remain, and the result is no longer than the input |
| Text.ReplaceSeparator | src/extractor.py:124-125 | a `"<<"` not preceded by a filler becomes one space under `replace("<<", " ")`, and the text on either side is replaced on its own |
| Text.RemoveSpaces | src/utils.py:44 | `replace(" ", "")` is filtering out the spaces |
| Text.NatToString | src/validators.py:32 | `str(n)` is non-empty decimal digits without a leading zero, denoting `n` |
| Validators.KeyNameInjective | src/extractor.py:124-139 | distinct record keys have distinct Python names |
| Validators.ValidatePassportData | src/validators.py:3-34 | the loops return exactly the specified issue list; falsy input gives `["No data to validate"]` |
| Validators.WellFormedByField | src/validators.py:14-32 | a record is well-formed exactly when the four required fields are non-empty, both dates are absent, empty or `strptime`-readable, and the MRZ string has at least 80 characters |
| Validators.MissingIssuesEmpty | src/validators.py:14-17 | each required field adds at most one issue; no issue exactly when no listed field is missing; every issue starts with `Missing required field: ` |
| Validators.DateIssuesEmpty | src/validators.py:20-27 | each date field adds at most one issue; no issue exactly when no listed date is malformed; every issue starts with `Invalid date format for ` |
| Validators.MissingReported | src/validators.py:14-17 | the message for a field is in the report exactly when the field is listed and absent or empty |
| Validators.MissingIssuesOfRecord | src/validators.py:14-17 | the missing-field issues are exactly one message per absent or empty required field, in the order surname, name, passport number, nationality |
| Validators.DateIssuesOfRecord | src/validators.py:20-27 | the date issues are the birth-date issue followed by the expiry issue, each present only for a present, non-empty value `strptime` rejects, and carrying that value |
| Validators.IssuesInOrder | src/validators.py:13-34 | a truthy record's report lists missing-field issues, then date issues, then at most one MRZ-length issue; at most 4 + 2 + 1 issues |
| Validators.ReportInOrder | src/validators.py:13-34 | the same order and bounds for any lists of required and date fields |
| Validators.IssuesEmptyIff | src/validators.py:10-34 | the report is empty exactly when the input is truthy and well-formed (both directions) |
| Validators.MrzReported | src/validators.py:29-31 | for a non-empty record, the MRZ issue for a length `n` is in the report exactly when `n` is the MRZ string's length and it is below 80 |
| Extractor.ConcatSpliced | src/extractor.py:98-100 | joining the character list of a line after element `k` was replaced by `x` splices `x` into the line in place of character `k` |
| Extractor.Join | src/extractor.py:100 | the join loop concatenates the list's pieces in order |
| Extractor.SexOverride | src/extractor.py:97-100 | without a sex code, or with line 2 of at most 20 characters, line 2 is unchanged; a one-character code replaces character 20 only, keeping the length |
| Extractor.ExtractMrzFromRoi | src/extractor.py:48-106 | the array edit and join give the specified triple: no detection or an OCR failure gives `(None, None, None)`; fewer than two lines gives `(None, None, mrz)`; otherwise the two normalised lines with the sex correction |
| Extractor.RoiLinesShape | src/extractor.py:48-106 | the triple's lines are present exactly when there is a parse and two OCR lines; line 1 is MRZ text of length 0 or 44; without a sex code, or when it normalises to `""`, line 2 is its normal form; otherwise the code replaces character 20: a one-character code changes only that position, and a longer one is spliced in whole, lengthening the line |
| Extractor.NameField | src/extractor.py:124-125 | the surname and given names are `""` when absent; otherwise there are no double fillers, no whitespace at either end and no lowercase letter |
| Extractor.NameFieldLetters | src/extractor.py:124-125 | the letters and digits of a present name field are those of the name, uppercased, in order |
| Extractor.NameFieldSeparator | src/extractor.py:124-125 | two non-empty name parts of capital letters and digits joined by `"<<"` come out as the two parts separated by one space |
| Extractor.NameFieldFixpoint | src/extractor.py:124-125 | a name already in normal form (non-empty, no double filler, no outer whitespace, no lowercase letter) is returned unchanged |
| Extractor.AssembleShape | src/extractor.py:122-139 | the record has exactly the twelve keys, and each key holds its own decoded field, the joined MRZ lines or the file's base name |
| Extractor.RecordOf | src/extractor.py:108-141 | no record exactly when the file is missing, nothing was detected or OCR failed; otherwise the twelve keys, the source file's name, and an empty MRZ string when fewer than two lines were read |
| Extractor.GetData | src/extractor.py:108-141 | the key-by-key fill returns exactly the specified record |
| Extractor.RecordMrzString | src/extractor.py:92-138 | with a sex code of at most one character, or none, the MRZ string has 0, 44 or 88 characters; with two non-empty OCR lines it starts with the normalised first line and has 88 characters plus one per extra character of the sex code; it is MRZ text whenever the sex code is |
| Extractor.RecordWellFormed | src/extractor.py:122-139 | a record whose required fields decode non-empty, whose dates parse and whose two OCR lines are non-empty is well-formed for the validator, whatever the sex code |
| Extractor.RecordPassesValidation | src/validators.py:3-34 | such a record gets an empty issue list |
| Extractor.PdfMrzFix | src/extractor.py:169-176 | a string under 88 characters is unchanged; a longer one becomes exactly 88 characters of MRZ text |
| Extractor.PdfMrzFixStable | src/extractor.py:169-176 | two well-formed 44-character lines pass the fix unchanged, and the fix is idempotent |
| Extractor.FixPageRecord | src/extractor.py:169-176 | the in-loop fix is the fix applied to a present record |
| Extractor.PageRecord | src/extractor.py:160-176 | one page's loop body gives the specified page record |
| Extractor.ProcessPdf | src/extractor.py:143-185 | the loop returns exactly the truthy page records, in page order; nothing when rendering fails |
| Extractor.KeptSnoc | src/extractor.py:178-179 | `if result: append(result)` extends the kept list by the new record exactly when it is truthy |
| Extractor.KeptInOrder | src/extractor.py:160-179 | at most one record per page, and the records of earlier pages come first |
| Extractor.KeptFrom | src/extractor.py:178-179 | every kept record is a present, non-empty page result |
| Extractor.PageResultShape | src/extractor.py:165-176 | every page record has the twelve keys, and its MRZ string is under 88 characters or exactly 88 of MRZ text |
| Extractor.PdfRecordsShape | src/extractor.py:143-185 | nothing for an unrenderable document, at most one record per page, and each record shaped as above |
| Extractor.SexOverrideAgrees | src/extractor.py:97-100 | writing the character already at position 20 leaves line 2 unchanged |
| Extractor.NormalisedLinesKept | src/extractor.py:92-176 | two lines already in normal form, whose position 20 agrees with the sex code, come through unchanged; the MRZ string is the two lines, 88 characters, and the PDF fix leaves it alone |
| Extractor.SpecimenLines | src/extractor.py:92-176 | for the ICAO specimen lines and sex `F`, the MRZ string is `line1 + line2`, 88 characters, and the PDF fix is a no-op |

## Left out

- Region detection (`read_mrz`), the conversion of the region to `uint8`, the resize and the OCR call (`src/extractor.py:55-86`) are outside collaborators. Their results are inputs, and any exception among them is the single `OcrFailed` outcome.
- `os.path.exists`, `os.path.basename`, `os.makedirs`, saving and removing the temporary page images, and all logging are file-system and logging I/O. Existence and the base name are parameters; `PageFileName` gives the temporary page's base name.
- `pdf2image.convert_from_path` is an outside collaborator; its failure is `conversion == None`.
- `dateutil.parser.parse` is not modelled. It is the parameter `dateutil`, so the model does not say which texts it accepts (two-digit MRZ years included).
- Utils.ParseDate: the `isoformat()` branch for date objects is not modelled, because the detector's fields are strings here. An `OverflowError` from the parser is not modelled either; it would escape `parse_date`, since only `ValueError` and `TypeError` are caught.
- Utils.ParseDate: `strftime('%Y')` pads years below 1000 to four digits on some platforms and not on others. The model always pads.
- Dates.FormatThenParse: `strptime` is modelled on the `%d`, `%m` and `%Y` patterns of CPython's `_strptime`, over ASCII digits only. Locale-dependent and Unicode digits are not modelled.
- Text.Upper, IsAlnum and IsSpace cover ASCII only. `str.upper()`, `isalnum()` and `isspace()` on non-ASCII characters (for instance `ß` becoming `SS`) are not modelled.
- Extractor.ProcessPdf: an exception raised by `get_data` inside the page loop would end `process_pdf`. The model has no such exception, because the modelled `get_data` does not raise.
- Check-digit verification is not modelled, because the source does not perform it.
- `setup_logger`, the country table's contents (`config/settings.py`, which is not part of this model), `src/formats.py`, `app.py`, `main.py`, `share_app.py` and `setup.py` are not modelled. They are configuration, export, command-line and web front-ends outside the post-processing core.
- The validator accepts any dictionary. Here a record has only the twelve keys `get_data` writes. A dictionary with other keys cannot be passed, and the validator ignores other keys anyway.
