# Invoice extractor: a Dafny model of its text and record logic

`Invoice-pro.py` is a Streamlit app that sends each uploaded invoice (an image,
or the first page of a PDF) to a Gemini model. It reads `**key:** value` lines
out of the model's answer, collects one record per upload into a pandas table,
and rewrites the currency columns as `INR 1,234.50`. This project models the
deterministic parts of that pipeline and proves what they do:

- `text.dfy` (module `Text`): the ASCII meaning of the regex classes `\w` and
  `\s`, plus `str.lower`, `str.strip` and `str.split` on one separator
  character.
- `records.dfy` (module `Records`): Python's insertion-ordered `dict`, and the
  dict comprehension that builds one from a list of pairs.
- `parser.dfy` (module `ResponseParser`): the parser of lines 65-69.
  - A hand-written scanner implements `re.findall(r"\*\*([\w_]+):\*\*\s+(.*)", text)`.
  - `IsMatchAt` is the declarative reference for one match of the pattern.
  - The scan is proved sound, ordered and complete: leftmost and
    non-overlapping.
  - The comprehension then lower-cases and strips the keys and strips the
    values.
- `parser_examples.dfy` (module `ParserExamples`): three worked responses.
  - In the first, the `\s+` run crosses a line break, so a key with nothing
    after it takes the next line, key marker and all, as its value.
  - In the second, the run also crosses a blank line and indentation.
  - In the third, two keys differ only in case, so the second overwrites the
    first.
- `extraction.dfy` (module `Extraction`), covering `extract_invoice_data` and
  the batch loop of `main`:
  - the extension split of line 85;
  - the exact, case-sensitive dispatch;
  - the bare string returned for unsupported types;
  - the empty record left by any failure inside the try block;
  - one entry per upload, in order.
- `currency.dfy` (module `Currency`): `standardize_inr`, and the loop over the
  eight currency fields inside a single try block. The first field without a
  column raises `KeyError`, and that stops the loop.
- `batch.dfy` (module `Batch`): `pd.DataFrame(data_list)` on a batch of
  records, linking the batch loop to the currency step.

The foreign steps are parameters of the model:

- What PIL or PyMuPDF do with an upload is a flag, `Upload.decodes`.
- What the model call returns is `Upload.reply`: `Ok(text)` or `Failed`.
- Python's `float` and the `:,.2f` formatting are the two functions of a
  `Numerics` value. `FloatSyntax` states the only facts about `float` that the
  proofs use: it rejects any string holding a comma and any string starting
  with `INR `.

Facts about the code that the model keeps:

- For an unsupported extension, `extract_invoice_data` returns the bare
  string `"Unsupported file type!"` (line 38), not a dictionary. The model
  keeps it as the `Message` outcome.
- `standardize_inr` is not idempotent. `float` rejects `INR 1,000.00`, so a
  second pass turns a standardised cell into `None`.
- The `\s+` of the pattern also matches line feeds, so it skips blank lines
  and indentation. A key with nothing after `:**` on its line takes as its
  value the next line that holds a non-whitespace character, from that
  character to the line's end.
- The prompt sent on line 42 spells the field `total_amont_in_words`. The
  prompt is not part of this model.

## Model

| member | source | states |
|---|---|---|
| Text.Split | Invoice-pro.py:85 | `split` on one character gives at least one piece, no piece holds the separator, and there is exactly one piece iff the separator does not occur |
| Text.JoinSplit | Invoice-pro.py:85 | joining the pieces of a split with the separator gives back the original string |
| Text.SplitJoin | Invoice-pro.py:85 | splitting a join of separator-free pieces gives back the pieces, so split and join are inverse |
| Text.LastPieceSuffix | Invoice-pro.py:85 | `split(sep)[-1]` is a suffix of the string, and the separator stands right before it whenever the string holds one |
| Extraction.FileExtension | Invoice-pro.py:85 | the extension holds no dot and is a suffix of the name, preceded by a dot when the name has one; it is the whole name iff the name has no dot |
| Extraction.ExtensionAfterLastDot | Invoice-pro.py:85 | the extension is exactly the text after the last dot of the name |
| Extraction.ExtensionOfTrailingDot | Invoice-pro.py:85 | `file.` has the empty extension |
| Extraction.ExtensionOfDottedName | Invoice-pro.py:85 | `scan.final.PDF` has extension `PDF`: only the last dot counts and case is kept |
| Extraction.Dispatch | Invoice-pro.py:26-38 | the image branch is taken iff the extension is `png`, `jpg` or `jpeg`, the PDF branch iff it is `pdf`, and every other extension is unsupported |
| Extraction.DispatchCaseSensitive | Invoice-pro.py:26-38 | every supported extension is lower-case and three or four characters long, so any extension with an upper-case letter is unsupported; `PDF` and `docx` are unsupported |
| Extraction.ExtractInvoiceData | Invoice-pro.py:24-74 | the result is the bare string `Unsupported file type!` iff the type is unsupported; every record is a well-formed dictionary; a failed decode or model call leaves the empty dictionary; otherwise the record is the parse of the reply text |
| Extraction.AssembleBatch | Invoice-pro.py:83-87 | one entry per upload, entry `i` being the result for upload `i` |
| Text.Lower | Invoice-pro.py:69 | `lower()` keeps the length, turns each upper-case letter into its lower-case letter (code point plus 32), changes no other character, leaves no upper-case letter, keeps word characters word characters, and leaves a string without upper-case letters unchanged |
| Text.LowerSameIgnoringCase | Invoice-pro.py:69 | two keys are lower-cased to the same key iff they differ only in the case of letters, which is when the comprehension merges them |
| Text.Strip | Invoice-pro.py:69 | `strip()` gives a contiguous slice of the input whose cut-off margins are all whitespace and which has no surrounding whitespace itself; it is empty iff the input is all whitespace, and equal to the input when the input has no surrounding whitespace |
| Text.StripIdempotent | Invoice-pro.py:69 | stripping twice is stripping once |
| ResponseParser.RunEnd | Invoice-pro.py:65 | a greedy run of a character class ends at the first character outside the class, or at the end of the text |
| ResponseParser.MatchAt | Invoice-pro.py:65-66 | one attempt of the pattern at a position returns, when it succeeds, a match in the sense of `IsMatchAt` starting there |
| ResponseParser.MatchOfRuns | Invoice-pro.py:65 | the runs the matcher measures (`**`, word characters, `:**`, whitespace, then up to the line feed) delimit a match in the sense of `IsMatchAt` |
| ResponseParser.RunsOfMatch | Invoice-pro.py:65 | in any match, each greedy run ends where the match says it does |
| ResponseParser.MatchAtComplete | Invoice-pro.py:65-66 | whenever the pattern matches at a position, the attempt there returns that very match, so the match at a position is unique |
| ResponseParser.Scan | Invoice-pro.py:66 | everything `findall` reports from a position is a match of the pattern in the sense of `IsMatchAt`, lying at or after that position and inside the text; the matches come left to right and do not overlap |
| ResponseParser.ScanComplete | Invoice-pro.py:66 | every match of the pattern at or after a position is reported, unless it starts inside a reported match (the non-overlapping rule) |
| ResponseParser.PairsWellFormed | Invoice-pro.py:65-69 | every stored pair has a non-empty, all-word-character, lower-case key and a value with no line feed and no surrounding whitespace |
| ResponseParser.ParseResponse | Invoice-pro.py:65-69 | the dictionary is well formed and each entry has a well-formed key and value; it is empty iff the pattern matches nowhere in the text; a key that occurs more than once keeps the value of its last occurrence; the number of entries is the number of distinct normalised keys |
| Records.Dict.Put | Invoice-pro.py:69 | assigning a key in the comprehension makes it map to the new value and changes no other key; a new key goes to the end of the order, a present one keeps its place |
| Records.FromPairs | Invoice-pro.py:69 | the comprehension builds a well-formed dictionary whose keys are exactly the keys of the pairs |
| Records.FromPairsOrder | Invoice-pro.py:69 | the keys are ordered by their first occurrence among the pairs: a later duplicate keeps the first position |
| Records.FromPairsLastWins | Invoice-pro.py:69 | the value kept for a key is that of its last pair |
| Records.FromPairsEntries | Invoice-pro.py:69 | every entry of the dictionary is one of the pairs |
| Records.FromPairsSize | Invoice-pro.py:69 | the dictionary has one entry per distinct key among the pairs |
| ParserExamples.MatchOfParts | Invoice-pro.py:65 | a text of the form prefix, `**`, word key, `:**`, whitespace, a value not starting with whitespace and without line feed, then end or line feed, holds a match with exactly that key and value |
| ParserExamples.CrossLine | Invoice-pro.py:65-69 | `**gst:**\n**total:** 5` parses to `gst` mapped to `**total:** 5` alone, with no `total` key |
| ParserExamples.BlankLine | Invoice-pro.py:65-69 | `**gst:**\n\n  x` parses to `gst` mapped to `x`: the whitespace run skips the blank line and the indentation |
| ParserExamples.CaseDuplicate | Invoice-pro.py:65-69 | `**GST:** 1\n**gst:** 2` parses to the single entry `gst` mapped to `2` |
| Currency.StandardizeInr | Invoice-pro.py:102-106 | the result is a string iff the value is a non-empty string that `float` accepts; such a result is `INR ` followed by the formatted number, and every other case gives `None` |
| Currency.StandardizeTwice | Invoice-pro.py:102-106 | applied twice, the function always gives `None`, so a standardised value is not a fixed point |
| Currency.GroupedAmountsRejected | Invoice-pro.py:104-106 | `1,000` and `INR 1,000.00` both give `None` |
| Currency.StandardizeColumn | Invoice-pro.py:110 | one column pass keeps the number of records and their key order, standardises the field in every record that has it, and leaves every other key alone |
| Currency.StandardizeColumns | Invoice-pro.py:108-112 | the loop keeps the number of records, their well-formedness and every record's keys in their order |
| Currency.StandardizeColumnsReached | Invoice-pro.py:108-112 | every field before the first missing column is standardised in every record that has it |
| Currency.StandardizeColumnsOthers | Invoice-pro.py:108-112 | the first missing column, every later field and every non-currency key keep their values |
| Currency.StandardizeCurrency | Invoice-pro.py:100-112 | the loop over the eight currency fields in their listed order: what the three lemmas above state, for that list |
| Currency.RowOf | Invoice-pro.py:90 | a parsed record becomes a table row with the same keys, in the same order, each holding the record's string |
| Batch.TableOf | Invoice-pro.py:90 | a batch of records becomes a table with one row per entry, in order, each row having its record's keys in their order and holding the record's strings |
| Batch.BatchTable | Invoice-pro.py:83-112 | when every upload has a supported type, the batch loop gives only well-formed records, and the currency step on their table keeps one row per upload |

## Left out

- The Streamlit page, the uploader, the table display and the CSV/Excel
  export (lines 77-80, 116-127) are UI and I/O.
- The secrets and the Gemini client setup (lines 8-16) are configuration.
- The model call and the shape of its response object (lines 41-44, 62) are
  a network call. Each upload carries the call's outcome instead.
- Line 62 sits outside the try block, so a response object of an unexpected
  shape would raise out of `extract_invoice_data`. The model assumes every
  successful reply yields its text.
- `if response:` (line 59) is taken as true for every successful reply; a
  response object that is falsy is not modelled.
- `Image.open` and the PyMuPDF render (lines 28-35) are library code. They
  are reduced to success or failure.
- Python's `float` and the `:,.2f` rounding and grouping (line 104) are
  floating-point numerics. They stay uninterpreted, apart from the two facts
  in `FloatSyntax`.
- `pd.DataFrame(data_list)` (line 90) is pandas. The table is a list of
  records, and a column exists when some record has the key.
- A batch that mixes the string `Unsupported file type!` with dictionaries is
  not modelled: the currency step takes a list of records. `pd.DataFrame` on
  such a list (line 90, outside any try block) may raise.
- Currency.StandardizeColumn: a record that lacks a key of an existing column
  holds NaN in pandas. `standardize_inr(NaN)` would give `INR nan`, since NaN
  is truthy. The model leaves such a record without the key.
- `if uploaded_files:` (line 82) skips all work for an empty upload list. The
  model's loop simply returns no entries.
- `\w`, `\s`, `lower()` and `strip()` are modelled on ASCII only. Python's
  versions are Unicode-aware.
- The `print` logging (lines 47, 55, 112) writes to the console and has no
  effect on the results.
- The extraction prompt (line 42) is a constant that is only sent to the
  model.
