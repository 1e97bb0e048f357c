# Legal act text tools, modelled in Dafny

This project models two small text-processing scripts from a corpus-preparation
repository for legal acts. Both read a structured plain-text dump of acts. The first
turns it into question/answer training data; the second only cuts it into one file per
act.

- `extra/txt_to_json.py` reads a document laid out with the markers `ACT INDEX:`,
  `ACT TITLE:`, `ACT NO:`, `ACT YEAR:`, `Section <n>`, `Q<n>:`, `A:` and `Type:`.
  - It splits the text into acts, each act into sections, and each section into
    question/answer entries.
  - It emits one flat record of nine stripped fields per entry.
  - It then writes the records either as JSONL (one chat-style exchange per line) or as
    one JSON list. A document without any entry is refused.
- `extra/helper.py` cuts the same kind of document into one file per act.
  - The cut falls at each rule of 80 `=` that is followed by a newline and `ACT INDEX:`.
  - An act gets a file only when it names an index, a title and a numeric year.
  - The file is named `Act_<index>_<year>_<title>.txt`, and the act is written framed by
    two rules.
  - The output folder name typed by the user is sanitised first.

The modules follow the program's structure:

- `Text` (`text.dfy`): character classes (`isspace`, digits, word characters), `strip`,
  repetition, `join` / `split` on a character, and filtering.
- `Patterns` (`patterns.dfy`): each regular expression of the two scripts, written out as
  an anchored matcher, with its greedy, lazy and look-ahead choices made explicit.
- `TxtToJson` (`txt_to_json.dfy`): `parse_document_to_json` as three nested loops.
- `Jsonl` (`jsonl.dfy`): `create_jsonl_format`, the plain JSON list and the conversion step.
- `ActSplitter` (`act_splitter.dfy`): `parse_and_split_acts` and the folder-name sanitiser.

`Patterns` also holds the three `re` entry points, `SearchBy` (`re.search`), `SplitBy`
(`re.split`) and `FindAllBy` (`re.findall`), written over any matcher.

The record functions and loops of `TxtToJson` take their six matchers as a `Scanners`
value, and those of `ActSplitter` take theirs as a `Finders` value. Each comes with a
predicate saying what is assumed of the matchers (`WellShaped`, `WellFormed`,
`DigitFinders`, `QAFaithful`).
- The concrete patterns of the scripts are `TxtToJson.Extractor()` and
  `ActSplitter.Splitter()`.
- The contract of the function `Extractor` and the lemmas `ExtractorQAFaithful` and
  `SplitterWellFormed` prove that the concrete patterns meet those predicates.
- So what is proved about splitting, pairing, ordering and skipping holds for the
  scripts' own patterns.

Reading and writing files is modelled as values:
- The document is a `string` parameter.
- The files the splitter would write are returned as a sequence of (name, contents)
  pairs.

How `json.dumps` prints a value is a parameter `Encoder`. JSON values themselves are the
datatype `Jsonl.Json`.

The index in a file name is zero-padded to *at least* three digits (`zfill(3)` at
`extra/helper.py:35`) and is never cut to three.

## Model

| member | source | states |
|---|---|---|
| TxtToJson.ParseDocument | extra/txt_to_json.py:7-71 | The records collected are exactly `DocumentRecords`: the acts of the split in order, each act's sections in order, and each section's matches in order. |
| TxtToJson.DocumentRecords | extra/txt_to_json.py:19-69 | All nine fields of every record of the document are whitespace-stripped. |
| TxtToJson.AppendSections | extra/txt_to_json.py:43-69 | The section loop appends exactly the records of the (number, body) pairs of the section split, from the first pair on. |
| TxtToJson.AppendMatches | extra/txt_to_json.py:57-69 | The match loop appends one record per match, in match order, after what was already collected. |
| TxtToJson.Extractor | extra/txt_to_json.py:15-54 | Each of the six patterns consumes text when it matches; the act, metadata and section patterns capture one group and the question/answer pattern four. |
| TxtToJson.MetaField | extra/txt_to_json.py:27-40 | A metadata value is always whitespace-stripped. |
| TxtToJson.MetaFieldMissing | extra/txt_to_json.py:27-40 | A metadata label that matches nowhere in the act yields the empty string, not an error. |
| TxtToJson.MetaFieldFirst | extra/txt_to_json.py:31-40 | Otherwise the value is the stripped group of the leftmost match; later occurrences are ignored. |
| TxtToJson.MetaNeverFilters | extra/txt_to_json.py:27-69 | The number of records of an act does not depend on its metadata, so a missing field never causes a skip. |
| TxtToJson.TextBeforeFirstActIgnored | extra/txt_to_json.py:15-19 | Text in front of the first `ACT INDEX: <digits>` never changes the records. |
| TxtToJson.NoActNoRecords | extra/txt_to_json.py:15-21 | A document without any `ACT INDEX: <digits>` gives no record. |
| TxtToJson.FirstAct | extra/txt_to_json.py:15-24 | When there is a marker: where the first one starts and ends, and where the body it opens ends (the next marker or the end of the text). |
| TxtToJson.FirstActRecords | extra/txt_to_json.py:15-24 | The first marker's digits are paired with exactly the body up to the next marker or the end, and that act's records come before those of the rest of the document. |
| TxtToJson.QARecordsAt | extra/txt_to_json.py:57-69 | There are as many records as matches, and record `i` is built from match `i`. |
| TxtToJson.QARecordsLength | extra/txt_to_json.py:57-69 | One record per match. |
| TxtToJson.SectionRecordsCarry | extra/txt_to_json.py:58-63 | Every record of a section carries the act's four metadata values and that section's number. |
| TxtToJson.SectionsFromCarry | extra/txt_to_json.py:46-63 | Every record of an act's sections carries the act's metadata and the stripped number of one of those sections. |
| TxtToJson.ActRecordsCarry | extra/txt_to_json.py:23-69 | Every record of an act carries that act's metadata and has all nine fields stripped. |
| TxtToJson.ActsFromStripped | extra/txt_to_json.py:19-69 | Every record of the acts from a given pair on is stripped. |
| TxtToJson.ExtractorQAFaithful | extra/txt_to_json.py:54-55 | The extractor's question/answer scanner matches exactly where the full shape starts. Its groups are the number and the trimmed spans between the markers, and the markers are the ones the engine picks: the answer ends at the first `Type:`, and the type ends at the first `\nQ<digits>:` or the end of the text after it. |
| TxtToJson.SectionRecordsEmpty | extra/txt_to_json.py:54-57 | A section gives no record if and only if no position in it starts the full `Q<n>: … \nA: … Type: …` shape, so there are no partial records. |
| TxtToJson.SectionRecordFromMatch | extra/txt_to_json.py:54-67 | Each record of a section comes from a full match at some position. Its number is the digits after `Q`. Its question, answer and type are the text between the markers the engine picks (first `\nA:`, first `Type:`, first following `\nQ<digits>:` or end), less surrounding whitespace. |
| TxtToJson.SectionRecordsAfterFirstMatch | extra/txt_to_json.py:54-69 | The leftmost match gives the first record of the section, and the text after that match gives the rest, so the records follow the non-overlapping matches left to right. |
| TxtToJson.QARecordsCons | extra/txt_to_json.py:57-69 | One more match in front gives its record in front of the others. |
| Jsonl.CreateJsonlFormat | extra/txt_to_json.py:74-99 | The loop builds the encoded entry of every record, in order, joined by newlines. |
| Jsonl.JsonlLinesAt | extra/txt_to_json.py:78-97 | There is one line per record, and line `k` is the encoding of record `k`'s entry. |
| Jsonl.JsonlEntry | extra/txt_to_json.py:80-96 | A line's object reads back as a user message with the question, then an assistant message with the answer, then metadata with the act title, section and type of the same record. |
| Jsonl.JsonlOneLinePerRecord | extra/txt_to_json.py:97-99 | No record gives the empty string. Otherwise, with a one-line encoder, splitting the text at newlines gives back exactly the record lines, in order. |
| Jsonl.StringObjectReadBack | extra/txt_to_json.py:58-68 | An object of string fields with distinct keys gives back its values key by key. |
| Jsonl.RecordJson | extra/txt_to_json.py:58-68 | A record's nine-key dict reads back as the same nine fields, unchanged. |
| Jsonl.RecordsJson | extra/txt_to_json.py:162 | The JSON list has one item per record, and item `i` reads back as record `i`. |
| Jsonl.Convert | extra/txt_to_json.py:131-162 | The conversion fails, with the script's message, if and only if the document has no record. Otherwise it gives the JSONL text or the JSON list of the records, as chosen. |
| Patterns.DigitFieldAt | extra/txt_to_json.py:15 | `ACT INDEX:\s*(\d+)`: the match starts with the key, then whitespace, and captures a non-empty digit run. |
| Patterns.DigitFieldAtIff | extra/helper.py:30-32 | `KEY\s*(\d+)` matches if and only if a digit follows the key and its whitespace. |
| Patterns.LineFieldAt | extra/txt_to_json.py:31-33 | `KEY\s*(.+?)` up to a newline or the end: the match starts with the key, and the group starts where the greedy whitespace run ends and runs to the end of that line, the newline after it being consumed too. When the whitespace runs to the end of the text, the engine backs off and the group is the last character of the run that is not a newline. |
| Patterns.SectionAt | extra/txt_to_json.py:43-44 | `Section\s+(\d+[A-Za-z]*)`: the match starts with `Section`, then at least one whitespace, and captures the number. |
| Patterns.QAHeadExact | extra/txt_to_json.py:54 | The digit run after `Q` in a match is the one ending at the first `:`. |
| Patterns.QAAt | extra/txt_to_json.py:54 | A match of the question/answer pattern captures four groups and consumes at least one and at most all characters; where it matches and what it captures is stated by `QAAtIffShape` and `QAAtGroups`. |
| Patterns.TypeTailStopsFirst | extra/txt_to_json.py:54 | The lazy type group ends at the first later position where `\nQ<digits>:` or the end of the text follows. |
| Patterns.TypeSkipsBlankLines | extra/txt_to_json.py:54 | Blank lines right after `Type:` are taken by its `\s*`, so a `\nQ<digits>:` starting inside them does not end the type group. |
| Patterns.QAAtIffShape | extra/txt_to_json.py:54 | The question/answer pattern matches at a position if and only if `Q<digits>:`, a later `\nA:` and a later `Type:` with text after it are all there. |
| Patterns.QAAtGroups | extra/txt_to_json.py:54-55 | In a match, the four groups are the number and the whitespace-trimmed question, answer and type spans. The spans end where the engine ends them: the question at the first `\nA:` (or an empty question right before `A:`), the answer at the first `Type:` after it, and the type at the first `\nQ<digits>:` or the end of the text after its first non-space character. |
| Patterns.AnswerMarkEnd | extra/txt_to_json.py:54 | The lazy question group ends at the first `\nA:` after the whitespace that follows `Q<n>:`. The only other end is an empty question, when that whitespace ends in a newline followed by `A:` and no `\nA:` from there on has a `Type:` behind it. |
| Patterns.TypeLabelFromMono | extra/txt_to_json.py:54 | A `Type:` label found after a position is also found after any earlier position. |
| Patterns.QAPairFaithful | extra/txt_to_json.py:54-55 | The question/answer pattern behaves as `QAAtIffShape` and `QAAtGroups` state, at every position, lazy ends included. |
| Patterns.SearchFound | extra/txt_to_json.py:31-33 | `re.search` returns the match at the leftmost position that matches. |
| Patterns.SearchMissing | extra/txt_to_json.py:31-33 | `re.search` returns nothing if and only if no position matches. |
| Patterns.SearchBy | extra/txt_to_json.py:31-33 | A match found by `re.search` captures the pattern's number of groups; `SearchFound` and `SearchMissing` state where it is. |
| Patterns.SplitAfterFirstMatch | extra/txt_to_json.py:15 | After the leftmost match, `re.split` continues with that match's groups and then the split of the rest of the text. |
| Patterns.SplitHeadAt | extra/txt_to_json.py:15 | The first piece of `re.split` is the text up to the first match, or all of it. |
| Patterns.SplitIgnoresClearPrefix | extra/txt_to_json.py:15 | Text without a match in front only lengthens the first piece of the split. |
| Patterns.SplitBy | extra/txt_to_json.py:15 | `re.split` always gives at least one piece; `SplitHeadAt` and `SplitAfterFirstMatch` state what the pieces are. |
| Patterns.FindAllEmpty | extra/txt_to_json.py:55 | `re.findall` returns nothing if and only if the pattern matches nowhere. |
| Patterns.FindAllMember | extra/txt_to_json.py:55 | Every element of `re.findall` is the groups of a match at some position of the text. |
| Patterns.FindAllSkipClear | extra/txt_to_json.py:55 | Text in front of the first match adds nothing to `re.findall`. |
| Patterns.FindAllAfterFirstMatch | extra/txt_to_json.py:55 | `re.findall` gives the groups of the leftmost match first, then continues after that match, so the matches are non-overlapping, left to right, and none is missed. |
| Patterns.FindAllBy | extra/txt_to_json.py:55 | Every element of `re.findall` holds the pattern's number of groups. |
| Patterns.LiteralMatchesText | extra/helper.py:14 | A pattern without metacharacters matches exactly its own text and captures nothing. |
| Patterns.SplitJoin | extra/helper.py:14 | Joining the pieces of a split on fixed text with that text gives back the whole input. |
| Text.StripRemovesOnlySpace | extra/txt_to_json.py:23 | `strip()` removes whitespace from the two ends and nothing else. |
| Text.Strip | extra/txt_to_json.py:23 | The result of `strip()` has no whitespace at either end. |
| Text.StripIdempotent | extra/txt_to_json.py:64-67 | A stripped value is its own `strip()`. |
| Text.SplitOnJoin | extra/txt_to_json.py:99 | Splitting at `c` undoes joining with `c` when no part contains `c`. |
| ActSplitter.Rule | extra/helper.py:48 | The rule is exactly 80 `=` characters. |
| ActSplitter.DigitFieldAtEach | extra/helper.py:30-32 | `KEY\s*(\d+)` matches where a digit follows the key and its whitespace, and captures a non-empty digit string. |
| ActSplitter.DigitSearch | extra/helper.py:30-32 | A search for `KEY\s*(\d+)` succeeds if and only if such a field occurs somewhere, and then yields a non-empty digit string. |
| ActSplitter.SplitterWellFormed | extra/helper.py:14-32 | The separator matches only its own text, each search captures one group, and the index and year searches find digit fields. |
| ActSplitter.Pieces | extra/helper.py:14-17 | The split always has a first piece, the header. |
| ActSplitter.PiecesRejoin | extra/helper.py:14-27 | The header followed by every fragment, each after the separator, is the whole document. |
| ActSplitter.NoSeparatorNoFiles | extra/helper.py:14-25 | A document without the separator is all header, and no file is written. |
| ActSplitter.ZFillPads | extra/helper.py:35 | The index is left-padded with `0` to at least three characters and is never cut. |
| ActSplitter.ZFill | extra/helper.py:35 | The result has `width` characters, or the original length when that is already longer. |
| ActSplitter.ZFillDigits | extra/helper.py:35 | Zero-padding a digit string leaves a digit string. |
| ActSplitter.UnderscoreSpaces | extra/helper.py:41 | No whitespace is left, the text never grows, and only the empty text gives the empty result. |
| ActSplitter.UnderscoreSpacesRun | extra/helper.py:41 | Each maximal whitespace run becomes exactly one `_`, and the text on either side is treated on its own. |
| ActSplitter.UnderscoreSpacesNoSpace | extra/helper.py:41 | Text without whitespace is left unchanged; with `UnderscoreSpacesRun` this fixes the result for every text. |
| ActSplitter.UnderscoreSpacesChars | extra/helper.py:41 | Once whitespace runs become `_`, a cleaned title holds only word characters and `-`. |
| ActSplitter.SafeTitle | extra/helper.py:40-41 | The safe title holds only word characters and `-`, and at most 50 of them. |
| ActSplitter.SafeTitleKeepsCleanTitle | extra/helper.py:40-41 | A title that is already clean and at most 50 long is used unchanged. |
| ActSplitter.FileName | extra/helper.py:43 | The name starts with `Act_`, ends with `.txt`, and is ten characters longer than its three fields together. |
| ActSplitter.FileNameReadBack | extra/helper.py:43 | `Act_<idx>_<year>_<title>.txt` gives back index, year and title when index and year hold no `_`. |
| ActSplitter.FileContents | extra/helper.py:47-50 | The contents are the act plus 162 characters, opening and closing with a rule of 80 `=` and a newline. |
| ActSplitter.UnframeContents | extra/helper.py:27-50 | The file contents are the marker and fragment between two rules; removing them gives back the fragment. |
| ActSplitter.ActFile | extra/helper.py:27-50 | A fragment gives a file if and only if the three searches all succeed. |
| ActSplitter.FieldsOfIff | extra/helper.py:30-34 | The three searches all succeed if and only if index digits, a title line and year digits occur; index and year are then digit strings. |
| ActSplitter.ActFileIff | extra/helper.py:30-34 | A fragment gives a file if and only if index digits, a title line and year digits are all found. A year without digits means a silent skip. |
| ActSplitter.ActFileShape | extra/helper.py:34-50 | The file's name reads back as the zero-padded index, the year and the safe stripped title. Its contents give back the fragment. |
| ActSplitter.ActOutcomesAt | extra/helper.py:25-34 | The outcome at position `j` is that of fragment `j`. |
| ActSplitter.WriteAct | extra/helper.py:27-50 | The loop body gives the file of fragment `k`, or nothing, as specified by `ActFile`. |
| ActSplitter.WriteActs | extra/helper.py:25-52 | The loop collects the files of every fragment after the header, in order, skipping fragments without all three fields. The count equals the number of files. |
| ActSplitter.ParseAndSplitActs | extra/helper.py:6-54 | The files written are those of the fragments after the header, in order, and the returned count is their number. |
| ActSplitter.ActFilesFrom | extra/helper.py:25-52 | There is at most one file per fragment, and every file is the file of one of them. |
| ActSplitter.SanitizeFolderName | extra/helper.py:80-82 | The folder name is never empty, and a name made only of forbidden characters becomes `split_acts`. |
| ActSplitter.SanitizeDropsForbidden | extra/helper.py:80 | Deleting a forbidden character anywhere in the name does not change the result, so only forbidden characters are removed. |
| ActSplitter.SanitizeFolderNameClean | extra/helper.py:80-82 | The folder name holds none of the nine forbidden characters (angle brackets, colon, double quote, both slashes, vertical bar, question mark, asterisk). A name that is already clean and non-empty is kept. |
| ActSplitter.SanitizeFolderNameIdempotent | extra/helper.py:80-82 | Sanitising a sanitised name changes nothing. |

## Left out

- The tkinter dialogs, message boxes and console `print` output are not modelled. This is the interactive shell around the two cores: `convert_txt_to_json` apart from its empty-data check and format choice, `select_file` apart from its sanitiser, and the `__main__` block. The format choice is the `Format` parameter of `Jsonl.Convert`; cancelling is not modelled.
- File reading and file writing are not modelled: `open`, `os.makedirs`, `os.path.join`, `os.path.dirname`, the output directory path and the base name of the output file. The document is a parameter, and the files are returned values.
- Two files with the same name are returned as two entries. On disk, the later write would replace the earlier one; this is not modelled.
- `extra/doctotxt.py` is not part of this model. It is a wrapper around the python-docx library, which cannot be seen here.
- How `json.dumps` writes text (escaping, separators, `ensure_ascii=False`, `indent=2`) is not modelled. The JSONL line is the `Encoder` parameter applied to a structured `Json` value, and `OneLine` states the only property of it that is used. The plain JSON format is returned as a `Json` value.
- Non-ASCII digits and letters are not modelled: `\d` and `\w` match only ASCII digits and ASCII letters, digits and `_`. Python's `\d` and `\w` on `str` also accept other Unicode digits and letters. `\s` and `strip()` use Python's full `isspace` list.
- Exceptions are not modelled. This covers the re-raise with a new message at `extra/helper.py:56-57`, and errors from unreadable files.
- The header computed at `extra/helper.py:17` is never used by the script. It is the first piece of `Pieces`, and `PiecesRejoin` covers it.
- No general regular-expression engine is modelled. Only the patterns the two scripts use are written out, and their backtracking is resolved by hand in `Patterns`.
