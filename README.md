# Researcher scraper: a Dafny model of its aggregation core

The scraper takes a list of researchers (name, institution, domain), finds
candidate web pages for each from a search result page, asks a language
model to extract a set of requested columns from each page, merges the
per-page answers into one record per researcher, and writes that record as
a spreadsheet row. This project models the parts of that pipeline that
carry logic, and proves what they promise:

- `output_format.dfy` (module `OutputFormat`), after `code/output_format.py`:
  - `build_prompts` turns the requested columns into extraction prompts.
    It removes the reserved columns, replaces "other key notes" by two
    synonym columns and cuts the rest into chunks. The caller's list is a
    `class ColumnList` because the Python function deletes from it in place.
  - `save_format` writes a three-section text file.
  - `read_saved` reads that file back with a `readline` loop.
- `analysis.dfy` (module `Analysis`), after `code/analysis.py`:
  - `bad_output` builds the error record.
  - `conv_to_dict` parses a reply. When that fails it tries again without
    the first and last lines (a fenced code block).
  - `generate_response` merges the model's replies over a record of the
    person's input fields.
  - `combine_dicts` merges the records from all of a person's links into
    one dictionary of text.
  - `analyze` runs `generate_response` for every link, and first
    `get_email` when `need_email` is set.
  - The model client, the page fetcher, the e-mail finder and `json.loads`
    are parameters (a `World` value).
- `scraper_main.dfy` (module `ScraperMain`), after `code/main.py`:
  - `get_links` is a chain of filters over the hrefs of a search page.
  - The row-building of `write_to_excel` fills an array, with the
    blank-line strip loop.
  - `read_csv` appends one researcher per CSV row to the module-level list
    `to_search`, modelled as `class SearchList`.
- `strs.dfy` (module `Strs`) holds the Python `str` operations the program
  uses: `find`, `in`, `split`, `join`, `replace` and ASCII `lower`.
- `dicts.dfy` (module `Dicts`) holds the insertion-ordered `dict` and its
  `|` operator.

Python's set iteration order is not fixed by the language. Where the
program turns a set into a list, the order is a parameter. For `get_links`
it is an `order` sequence that lists the set's members once each. For
`write_to_excel` it is an `enumerate` function.

Behaviours of the program a reader may not expect:

- `combine_dicts` skips a value only when it equals the accumulated text.
  A value merely contained in that text is appended
  (`Analysis.ContainedIsAppended`).
- Seven columns are cut into chunks of 3, 3 and 1
  (`OutputFormat.SevenColumns`). The chunking test uses the column count
  from before the reserved columns are removed.
- The synonym column is spelled "Awards recieved".
- A person with no links gets the empty record
  (`Analysis.NoLinksNoOutput`).
- The "skip extraction" prompt list `["NONE"]` is still sent to the model
  as a prompt (`Analysis.SentinelStillSent`).
- The blank-line strip in `write_to_excel` stops after half of the lines
  (`ScraperMain.StripKeepsText`).

## Model

| member | source | states |
|---|---|---|
| OutputFormat.BuildPrompts | code/output_format.py:16-51 | The prompts are the specification function `BuiltPrompts` of the original columns. The caller's list is left as the reserved-column loop and the chunk loop leave it: the chunk loop empties it, while the early returns keep the stripped list. |
| OutputFormat.RemoveReserved | code/output_format.py:28-33 | The reserved-column loop leaves exactly `StripReserved(cols, RESERVED_COLUMNS)` in the list. |
| OutputFormat.RemoveOne | code/output_format.py:28-33 | One turn of the reserved-column loop: the name's first occurrence is deleted, and the two synonym columns are appended when it spells "other key notes". |
| OutputFormat.ChunkPrompts | code/output_format.py:43-51 | The chunk loop gives one prompt per chunk of `Chunks(cols, rem)`, in order, and leaves the list empty. |
| OutputFormat.IndexOf | code/output_format.py:30 | `list.index` gives the first position holding the column. |
| OutputFormat.RemoveFirst | code/output_format.py:30-31 | Deleting at that index removes one copy of the column and nothing else (multiset difference). |
| OutputFormat.ReservedRemoval | code/output_format.py:28-33 | Each reserved column present loses exactly one copy. Every other column keeps its count. Each synonym column gains one copy per spelling of "other key notes" present. |
| OutputFormat.StripReservedCount | code/output_format.py:28-33 | The per-column count after removing any distinct list of reserved names, by induction over the list. |
| OutputFormat.NotesBecomeSynonyms | code/output_format.py:32-33 | When "other key notes" is requested, the two synonym columns end the stripped list. |
| OutputFormat.SynonymsStayLast | code/output_format.py:28-33 | Removing later reserved columns keeps the synonyms at the end. |
| OutputFormat.NotesSpellings | code/output_format.py:9-13 | Only the two "other key notes" spellings among the reserved names lower-case to "other key notes". |
| OutputFormat.ReservedFacts | code/output_format.py:9-13 | The reserved names are distinct, and none of them is a synonym column. |
| OutputFormat.ChunksCover | code/output_format.py:44-50 | The chunks the loop cuts, concatenated, are the columns in order. |
| OutputFormat.ChunkSizes | code/output_format.py:44-50 | Every chunk has 1 to 3 columns. Only the first chunk has 4, and it has 4 exactly when the remainder is 2 and at least 4 columns remain. |
| OutputFormat.SevenColumns | code/output_format.py:44-50 | Seven columns give chunks of 3, 3 and 1. |
| OutputFormat.PromptFraming | code/output_format.py:20-26 | Every prompt starts with the text that holds both placeholders and ends with the text asking for 'NONE' when nothing is found. |
| OutputFormat.BuiltPromptsShape | code/output_format.py:35-51 | The skip sentinel is returned iff no column is left. Fewer than 3 requested columns give one prompt for all of them. Otherwise the prompts cover the remaining columns in order, in chunks of at most 4, where only the first chunk may hold 4. |
| OutputFormat.SaveFormat | code/output_format.py:88-104 | The file `saved_output_formats/<name>.txt` holds, in order, each marker line followed by its comma-joined items, then the newline-joined prompts. |
| OutputFormat.ReadLine | code/output_format.py:68 | `readline` returns a prefix of the rest of the file, and it returns "" exactly at end of file. |
| OutputFormat.ReadSaved | code/output_format.py:54-85 | The readline loop computes the specification function `Parsed` of the file text. |
| OutputFormat.SaveThenRead | code/output_format.py:54-104 | Reading a saved format gives back the header, sites and prompts written. This needs non-empty header and sites without commas, '\n' or '\r', prompts without '\n' or '\r', and a last prompt that is not empty. |
| OutputFormat.MissingSections | code/output_format.py:63-85 | A section whose marker never occurs in the file reads as an empty list. |
| OutputFormat.ReadLinesJoined | code/output_format.py:77-79 | The lines after "#PROMPTS", with their newlines cut off, are the saved prompts. |
| Analysis.BadOutput | code/analysis.py:90-100 | The error record holds exactly one key, "error", mapped to the error. |
| Analysis.FromPairsLastValue | code/analysis.py:111 | A dictionary parsed from JSON maps a key to the last value given for it. |
| Analysis.ConvToDict | code/analysis.py:103-132 | A reply that parses is returned as parsed. A one-line reply that does not parse gives the IndexError record. |
| Analysis.FencedRecovery | code/analysis.py:125-132 | When the reply fails to parse, the text between its first and last line is parsed. Its failure gives the error record. |
| Analysis.TwoLineRecovery | code/analysis.py:125-132 | A two-line reply that fails to parse loses both lines, so the empty text is parsed. Its failure gives the error record. |
| Analysis.BadObjectIsBadOutput | code/analysis.py:130-132 | The error record returned by conv_to_dict merges as bad_output. |
| Analysis.Project | code/analysis.py:57 | The starting record holds exactly the header's keys, with the person's values. |
| Analysis.ResponseRecords | code/analysis.py:59-85 | There is one reply record per prompt. |
| Analysis.ResponseRecordsAt | code/analysis.py:59-85 | The i-th record is the reply to the i-th prompt with both placeholders filled in. |
| Analysis.GenerateResponse | code/analysis.py:48-87 | The loop computes `Responded`: the starting record with every reply record merged over it in order. |
| Analysis.AskPrompt | code/analysis.py:60-85 | One prompt's turn fills in both placeholders and turns the reply into its record: the service failure or the exception as the error record, a parsed object as that dictionary, anything else as the `|` TypeError record. |
| Analysis.RespondedWellFormed | code/analysis.py:57-87 | The result of generate_response has no repeated key. |
| Analysis.UnionAllHas | code/analysis.py:74-85 | A key is in the result iff it is in the start record or in some reply record. |
| Analysis.UnionAllLastWins | code/analysis.py:74-85 | A key takes its value from the last reply record holding it. |
| Analysis.UnionAllUntouched | code/analysis.py:74-85 | A key no reply holds keeps its starting value. |
| Analysis.UnionAllKeepsStart | code/analysis.py:74-85 | The merged record's keys start with the starting record's keys, in order. |
| Analysis.AllFailures | code/analysis.py:73-75 | When every call fails on the service side, the input fields survive and "error" holds the last failure. |
| Analysis.SentinelStillSent | code/analysis.py:59-82 | The skip sentinel `["NONE"]` is sent to the client unchanged, as one prompt. |
| Analysis.CleanValue | code/analysis.py:137-139 | A "NONE" string becomes blank, and every other value is kept. |
| Analysis.Clean | code/analysis.py:137-139 | Cleaning keeps every key, in order, and cleans every value. |
| Analysis.Absorb | code/analysis.py:144-153 | Absorbing one pair sets that key's text by the per-key accumulation rule. A new key goes last; an existing key keeps its place. |
| Analysis.AbsorbOther | code/analysis.py:144-153 | Absorbing one pair leaves every other key's text as it was. |
| Analysis.CombineDicts | code/analysis.py:135-155 | The nested loops compute the fold `Combine` over the cleaned records. |
| Analysis.AbsorbRecord | code/analysis.py:144-153 | The inner loop absorbs one record's pairs in order. |
| Analysis.AbsorbItem | code/analysis.py:144-153 | One pair is skipped when its text repeats the merged text or is empty, appended on a new line otherwise, and added as is for a new key. |
| Analysis.Merge | code/analysis.py:143-153 | A key gets text iff some record holds it. |
| Analysis.CombinePerKey | code/analysis.py:135-155 | A key's combined text is the merge of that key's values across all records, in record order. |
| Analysis.CombineKeys | code/analysis.py:135-155 | A key is in the combined dictionary iff some record holds it. |
| Analysis.CombineKeyOrder | code/analysis.py:142-153 | The keys come in order of first appearance. |
| Analysis.MergeGrows | code/analysis.py:148-151 | Merging another value only appends to the text. |
| Analysis.NoneMergesToBlank | code/analysis.py:137-153 | A key whose every value is blank or "NONE" merges to "". |
| Analysis.SameTextTwice | code/analysis.py:148-150 | An equal repeat is skipped. |
| Analysis.BlankThenText | code/analysis.py:148-153 | A blank first value still leaves a leading newline before later text. |
| Analysis.ContainedIsAppended | code/analysis.py:148-151 | A value contained in the text, but not equal to it, is appended. |
| Analysis.OtherAppended | code/analysis.py:151 | A non-string value is appended as its `str()` text. |
| Analysis.Analyze | code/analysis.py:172-187 | The output is `Combine` of the records gathered link by link. The header must name the person's fields only when there are links. |
| Analysis.AnalyzeLink | code/analysis.py:180-184 | One link adds its e-mail record when e-mails are wanted, then its generate_response record. |
| Analysis.ResponsesPerLink | code/analysis.py:179-184 | Without e-mail, there is one generate_response record per link, on that link's page text. |
| Analysis.EmailThenResponse | code/analysis.py:179-184 | With e-mail, each link contributes its e-mail record followed by its response record. |
| Analysis.AllOutputWellFormed | code/analysis.py:179-184 | Every gathered record has no repeated key. |
| Analysis.NoLinksNoOutput | code/analysis.py:179-187 | A person with no links gets the empty dictionary. |
| ScraperMain.Filter | code/main.py:99-113 | A comprehension filter keeps exactly the members that pass, in order. It never grows and keeps the list free of repeats. |
| ScraperMain.KeepHrefMeaning | code/main.py:99-102 | An href is kept iff it starts with no bad prefix and "google.com" occurs in it at most at position 0. |
| ScraperMain.Unwrapped | code/main.py:110-111 | The unwrapped link is the text after the last "/url?q=" and before the first "&sa" after it. |
| ScraperMain.CandidatesFrom | code/main.py:99-113 | A link is a candidate iff it is the unwrapping of a kept href that avoids every bad location and whose unwrapping has no "/search". |
| ScraperMain.PassesPlain | code/main.py:99-113 | An href avoiding the letters of every marker passes every filter unchanged. |
| ScraperMain.GetLinksAsWritten | code/main.py:99-124 | As written: at most one link per member of the set, each the lower-casing of a member. `AsWrittenMember`, `AsWrittenLower` and `CaseDuplicates` state the rest. |
| ScraperMain.GetLinks | code/main.py:99-124 | Corrected version: the links are lower-case and free of repeats. |
| ScraperMain.GetLinksMember | code/main.py:115-124 | Corrected version: a link is returned iff it is the lower-casing of a candidate and it mentions "ieee", both name tokens, or the lower-cased institution. |
| ScraperMain.AsWrittenMember | code/main.py:115-124 | As written: the same links are returned. |
| ScraperMain.AsWrittenLower | code/main.py:120 | As written: every link returned is lower-case. |
| ScraperMain.EmptyNameAcceptsAll | code/main.py:115-123 | An empty name makes both tokens "", so every candidate passes the name test. |
| ScraperMain.SearchCheckIsCaseSensitive | code/main.py:113-124 | Corrected version: the "/search" test runs before lower-casing, so "/Search" comes out as "/search". |
| ScraperMain.SearchCheckIsCaseSensitiveAsWritten | code/main.py:113-124 | As written: "/Search" also comes out as "/search". |
| ScraperMain.CaseDuplicates | code/main.py:120-124 | As written: two passing hrefs whose unwrappings differ only in case give a repeated link. |
| ScraperMain.CaseDuplicatesExist | code/main.py:120-124 | As written: hrefs "IEEE" and "ieee" give a repeated link for every set order. |
| ScraperMain.LeadingBlanks | code/main.py:164-168 | The count of blank lines at the front. |
| ScraperMain.StripLeadingBlanks | code/main.py:164-168 | The loop removes the first `min(leading blanks, len / 2)` lines. |
| ScraperMain.StripKeepsText | code/main.py:164-168 | Only blank lines are removed, at least one line is left, and every text line survives. When more than half the lines are leading blanks, a blank line is left in front. |
| ScraperMain.UniqueBlank | code/main.py:164-169 | The joined unique lines are "" iff every line of the value is blank. |
| ScraperMain.BlankMatchedIsNone | code/main.py:169-179 | A matched column whose value is all blank lines gets "NONE". |
| ScraperMain.JoinEmpty | code/main.py:169 | A join is "" iff it joins nothing or a single "". |
| ScraperMain.RowAfter | code/main.py:152-181 | The row has one cell per header column. |
| ScraperMain.FillForKey | code/main.py:156-181 | The inner loop updates every column for one key as `Step` says and touches nothing else. |
| ScraperMain.WriteRow | code/main.py:152-181 | The array starts as one "NONE" per column, and the outer loop leaves `RowAfter` of every output key in it. |
| ScraperMain.ColumnUnmatched | code/main.py:152-181 | A column no key matches, which is neither "relevant links" nor "topic", stays "NONE". |
| ScraperMain.ColumnMatched | code/main.py:171-179 | Another column gets the unique lines of the last key matching it case-insensitively. |
| ScraperMain.LinksColumn | code/main.py:159-161 | With at least one key, the "relevant links" column holds the newline-joined links. |
| ScraperMain.TopicColumn | code/main.py:171-181 | The "topic" column is decided by the last key alone: its data if that key is "topic", else "". |
| ScraperMain.FirstShort | code/main.py:57-65 | The rows before the first row with fewer than two fields. |
| ScraperMain.Loaded | code/main.py:57-65 | One researcher per row after the header, up to the first short row. Each takes name and institution from the first two fields, and the domain from the third, or "N/A" when there are two fields. |
| ScraperMain.ReadOutcome | code/main.py:52-65 | An empty file raises at the header. Reading completes iff every later row has at least two fields. Otherwise it fails at the first short row. |
| ScraperMain.SearchList.constructor | code/main.py:28 | `to_search` starts empty. |
| ScraperMain.SearchList.ReadCsv | code/main.py:48-66 | Appends `Loaded(records)` to `to_search`, keeps what was read before a failure, and returns `ReadOutcome(records)`. |

## Findings

| source | as written | input that shows it | evidently intended | confidence | as-written member | corrected member |
|---|---|---|---|---|---|---|
| code/main.py:120 | `set(links)` removes repeats before the links are lower-cased, so links that differ only in case both survive and become equal | hrefs "IEEE" and "ieee" (any name and institution) give ["ieee", "ieee"] | lower-case first, then remove repeats, so no link is returned twice | not executed | ScraperMain.CaseDuplicatesExist | ScraperMain.GetLinks |

`ScraperMain.GetLinksAsWritten` is the comprehension as written.
`ScraperMain.CaseDuplicates` is the general form of the finding.
`ScraperMain.GetLinks` removes repeats after lower-casing and keeps the
same membership (`ScraperMain.GetLinksMember`).

## Left out

- A completion whose `message.content` is `None` is not modelled: a
  `Completion` always carries text. In the program `json.loads(None)` fails
  and `None.split` raises AttributeError, so `conv_to_dict` returns
  `bad_output` of that error.
- The network and page parsing are not modelled. That covers `requests`,
  playwright, BeautifulSoup, random user agents and sleeps. `get_links`
  starts from the hrefs of the search page, and the page text is the
  parameter `World.fetch`.
- `get_email` is the oracle `World.findEmails`. The regular expression is
  not modelled.
- The language-model client is the oracle `World.client`. Its three
  outcomes are a service-failure dictionary, a completion and an exception.
- `json.loads` is the oracle `World.parse`. It returns an object's pairs,
  a non-object value, or an error message.
- File I/O is modelled as text. `read_saved` reads a string, `save_format`
  writes to an `OutFile` object, and `read_csv` takes the rows as the CSV
  reader splits them. CSV quoting is not modelled.
- OutputFormat.ReadSaved: the text it parses is the file after Python's
  text-mode newline translation, so a '\r' or '\r\n' in the file already
  reads as '\n'. The translation itself is not modelled, which is why
  `OutputFormat.SaveThenRead` excludes '\r' from every saved item.
- openpyxl is not modelled. `write_to_excel` takes the header cells' texts
  and returns the row. Loading and saving the workbook are left out.
- Header cells whose value is `None` are not modelled. In the program they
  make `.lower()` raise.
- `read_saved` does not model the "base" alias for the default path. The
  path is not modelled, only the file's text.
- Analysis.GenerateResponse: requires every header column to be among the
  person's fields. Without that the program raises KeyError before any
  call.
- Analysis.Analyze: does not model `repr` escaping. A list of e-mails
  merges as the text `ListText` builds, which quotes each address plainly.
- ScraperMain.WriteRow: takes the output as a dictionary of strings. In
  the program a non-string value makes `split` raise AttributeError, and
  that path is not modelled.
- ScraperMain.GetLinks: the set's iteration order is the parameter
  `order`, so which order the links come in is not modelled.
- ScraperMain.RowAfter: the unique-lines join takes the set's order from
  the parameter `enumerate`.
- Analysis.AbsorbRecord: `AbsorbPrefix` carries a `k in d.vals` guard.
  It always holds for records without repeated keys.
- `bigmode` and `token_data` in `code/main.py` are not modelled. They
  only drive the modelled operations through I/O: the API client, the
  workbook, token counting and printing. `code/interface.py`, the GUI that
  only gathers options, is not part of this model.
- Python's `str.lower` is modelled for ASCII letters only.
