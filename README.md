# strings2csv in Dafny

strings2csv.py is a small batch tool for iOS/macOS localisation. It walks a
directory tree and collects every `<lang>.lproj/<name>.strings` file, then
groups the files that share a parent path and a file name. For each group
it parses every language's file. A file is a line-oriented list of
`"<object-id>" = "<value>";` assignments, each optionally preceded by a
`/* ... */` or `// ...` comment. The entries are merged into one row per
object id with one value per language. The result is a CSV whose header is
`path, file, object-id, comment` followed by every language seen.

The project models that pipeline on values. Each stage of the pipeline has
its own module, beside three modules of shared definitions (`Wrappers`,
`Model`, `PyStr`):

- `Wrappers`: `Option` for Python's `None`, `Result` for the exceptions
  that end a run.
- `Model`: the records the source passes around as dicts
  (`StringsFile`, `MergedFile`, `Entry`), the run's `Error`s, and the file
  system as a map from file name to lines.
- `PyStr`: the Python 2 `str` built-ins the tool relies on. `strip`,
  `lstrip`/`rstrip` remove characters drawn from a set, not a fixed
  affix. The model keeps that meaning and states it in their contracts.
- `Paths`: POSIX `os.path.join`, `completeFilename`, `mergedFilenameForLang`,
  and the record the directory walk derives for a directory
  (`getStringsFiles`).
- `Parser`: `getStringsFileContents`.
  - It is a left fold (`Run`) of a two-state machine (`Step`) over
    classified lines.
  - A loop (`GetStringsFileContents`) is proved to compute `Parse`.
  - Lemmas characterise `Parse` without the machine: last assignment wins,
    the comment pending before it, and failure on the first `;` line
    without `=`.
- `ContentMerge`: `getMergedStringsFileContents`.
  - The base language is parsed first, then each further language's
    entries are folded in.
  - The fold is stated over an arbitrary per-language parse result. Lemmas
    give the merged ids, comments and values in terms of the individual
    files.
- `Grouping`: `mergeStringsFiles`, a loop building a dict keyed by
  `path + name`, and `dict.values()`.
- `Languages`: `languageListFromFiles`, the ordered, duplicate-free
  language columns.
- `Export`: the body of `main` after option parsing. It builds the header,
  the rows, and the whole run from the walk's records to the rows.

Files are opened by looking the name up in a `FileSystem` map. A name that
is missing gives `MissingFile`, where the source raises `IOError`. The
other two exceptions the source can raise are also modelled as `Error`s:
- `splitLine[1]` on a `;` line without `=` gives `UnsplitLine`;
- `langs[0]` on an empty language list gives `NoLanguages`.

Python 2 dicts iterate in an unspecified order. So `Values`, `FoldEntries`
and `EntryRows` pick keys in an arbitrary order, and their contracts hold
for every order.

In five places the code differs from the tool's documented intent, and the
model follows the code:

- **Grouping order.** One might expect the groups in first-seen order.
  The code returns `result.values()` of a Python 2 dict, which has no
  defined order, and the model claims none.
- **Entry order.** The same applies to the merged entries of one file.
- **Object ids.** The intent is to remove a trailing quote, or the
  `.text" ` suffix. The code calls `rstrip(".text\" ")`, which strips any
  trailing run of the characters `. t e x " space`.
  `Parser.TextSuffixEatsIdChars` shows the id `LiR-e1-W2x` losing its
  final `x`.
- **Malformed lines.** Unrecognised lines are meant to be skipped. But a
  line that ends in `;` and has no `=` makes the code fail with an
  `IndexError` (`UnsplitLine` here). Only other unrecognised lines are
  skipped.
- **Directory check.** Language directories are meant to be named
  `<lang>.lproj`, but the code never checks that the parent directory name
  ends in `.lproj`. It records every `.strings` file and derives the
  language with `rstrip("lproj")[:-1]`, as `Paths.RecordsIn` does.

## Model

| member | source | states |
|---|---|---|
| PyStr.LStrip | strings2csv.py:134-136 | `lstrip(chars)` keeps a suffix of the input. Every dropped character is in the set, and the result does not start with one |
| PyStr.RStrip | strings2csv.py:134-136 | `rstrip(chars)` keeps a prefix of the input. Every dropped character is in the set, and the result does not end with one |
| PyStr.Strip | strings2csv.py:120 | `strip()` keeps a slice of the line with only whitespace outside it and none at its ends, so exactly the line minus its leading and trailing whitespace. It is empty exactly when the line is all whitespace |
| PyStr.StripSlice | strings2csv.py:120 | stripping a set from the front and then from the back leaves a slice of the input with only characters of the set around it |
| PyStr.Find | strings2csv.py:132 | the position found holds the first occurrence of the character. Nothing is found exactly when the character does not occur |
| PyStr.SplitOnce | strings2csv.py:132 | `split("=", 1)` gives one piece, the whole line, exactly when there is no `=`. Otherwise it gives the text before the first `=` (which holds no `=`) and the text after it, which rejoin to the line |
| PyStr.DropLast | strings2csv.py:75 | `[:-1]` drops exactly the last character, and gives "" for "" |
| Paths.Join | strings2csv.py:54 | `os.path.join` ends with its second argument. An absolute second argument replaces the first; otherwise the result is the first argument, then a `/` exactly when the first argument is non-empty and does not end in one, then the second |
| Paths.MergedFilenameForLang | strings2csv.py:56-57 | a language's file name ends with the merged file's name |
| Paths.CompleteFilename | strings2csv.py:53-54 | a record's file name is the name `mergedFilenameForLang` gives for the record's path, name and language, whatever the other languages are |
| Paths.FilenameLayout | strings2csv.py:56-57 | with relative components the file name is `path`, a separator where needed, `<lang>.lproj/`, then `name` |
| Paths.FilenamesDistinct | strings2csv.py:56-57 | two different relative languages of one merged file open two different files |
| Paths.LangOf | strings2csv.py:75 | a directory's language is a prefix of its name, and a non-empty name always loses at least one character (the `[:-1]`). Every character after the one that follows it is one of `l p r o j`; that following character is not, unless the whole name is |
| Paths.LangOfUnique | strings2csv.py:75 | any string meeting the contract of `LangOf` is the language: that contract fixes the result |
| Paths.LangOfLproj | strings2csv.py:75 | for any language code, the directory `<lang>.lproj` gives back that code: the `.` stops the character strip |
| Paths.DirPath | strings2csv.py:75 | the recorded path is a prefix of the relative path. Every character removed occurs in the base name, and the path does not end in one |
| Paths.DirPathOfChild | strings2csv.py:75 | for a directory `parent/base` whose base name holds no `/`, the recorded path is `parent/` |
| Paths.DirPathOfTop | strings2csv.py:75 | at the top of the walk the recorded path is empty |
| Paths.StringsNames | strings2csv.py:75 | the file names kept are exactly the listed names ending in `.strings`, each as often as it is listed |
| Paths.StringsNamesAppend | strings2csv.py:75 | the names kept from two listings one after the other are the names kept from each, in that order, so the filter keeps listing order |
| Paths.RecordsIn | strings2csv.py:74-75 | one record per listed `.strings` file, in listing order, each with the directory's path and language |
| Parser.ObjectId | strings2csv.py:133-136 | an object id never starts with a quote and never ends with a quote or space. With the `.text" ` key it ends in none of `. t e x " space` |
| Parser.Value | strings2csv.py:143 | a value never starts with a space or quote and never ends with a quote or `;` |
| Parser.Classify | strings2csv.py:120-132 | an assignment's id and value are cleanly stripped; a comment line starts with `/*` or `//` |
| Parser.ClassifyStripped | strings2csv.py:121-132 | on an already-stripped line an assignment's id and value are cleanly stripped, and a comment line starts with `/*` or `//`; the tests are those of lines 121-132, in order |
| Parser.Parse | strings2csv.py:115-148 | a successful parse files every entry under its own id, with a value for exactly the file's language |
| Parser.GetStringsFileContents | strings2csv.py:115-148 | the source's loop returns what `Parse` gives, including the failure on a line without `=` |
| Parser.LastMarker | strings2csv.py:124-146 | finds the last comment or assignment line; nothing after it is either |
| Parser.LastAssign | strings2csv.py:144 | finds the last line assigning an id; no later line assigns it |
| Parser.PendingComment | strings2csv.py:124-146 | the machine holds a comment exactly when a comment line came after the last assignment, and holds the most recent one |
| Parser.ParseEntries | strings2csv.py:138-146 | an id is a key exactly when some line assigns it. Its entry is the last such line's value, under the file's language, with the comment pending before that line |
| Parser.RunFailure | strings2csv.py:130-143 | the parse fails exactly when some line classifies as a `;` line without `=`, and the error names the first such line |
| Parser.ParseCharacterised | strings2csv.py:115-148 | `Parse` in terms of the file's raw lines: when it fails, which ids it defines, which line and comment each comes from, and that ids and values are cleanly stripped |
| Parser.InertLines | strings2csv.py:120-130 | blank and unrecognised lines change neither the entries nor the comment state |
| Parser.AssignmentClearsComment | strings2csv.py:145-146 | after an assignment no comment is pending |
| Parser.ClassifyEdgeCases | strings2csv.py:120-132 | an all-whitespace line is blank; a non-comment `;` line without `=` is a failure line |
| Parser.ClassifyBlank | strings2csv.py:120-122 | a line classifies as blank exactly when it is all whitespace |
| Parser.StripKeepsOut | strings2csv.py:120 | stripping adds no character: one absent from the raw line is absent from the stripped line |
| Parser.ClassifyNoEquals | strings2csv.py:121-132 | a stripped `;` line that is not a comment and holds no `=` is a failure line |
| Parser.TextFormsAgree | strings2csv.py:133-136 | for an id not ending in `. t e x " space`, the keys `"id.text" ` and `"id" ` give the same object id |
| Parser.TextSuffixEatsIdChars | strings2csv.py:133-134 | the key `"LiR-e1-W2x.text" ` gives the id `LiR-e1-W2`: the set strip eats the id's own final `x` |
| ContentMerge.ParseLang | strings2csv.py:105-106 | a language's parse result is well shaped for that language; a missing file fails with that file's name |
| ContentMerge.LangParser | strings2csv.py:100-106 | every language's parse result, taken together, is well shaped |
| ContentMerge.GetMergedStringsFileContents | strings2csv.py:99-113 | the source's loops compute the merge `MergeSpec` of the merged file's languages |
| ContentMerge.FoldEntries | strings2csv.py:107-111 | folding one language's entries in any order adds new ids whole and adds that language's value to ids already present |
| ContentMerge.FoldOneMore | strings2csv.py:108-111 | one more entry of the inner loop changes the merged map at its id only |
| ContentMerge.FirstDefiner | strings2csv.py:104-109 | finds the first language, in list order, whose file defines an id |
| ContentMerge.MergeLangsFromEmpty | strings2csv.py:100-101 | starting from the base language's entries is the same as folding the base language into no entries |
| ContentMerge.MergeFromOutcome | strings2csv.py:104-106 | the fold over further languages succeeds exactly when each of them parses. Otherwise it fails with the first failing language's error |
| ContentMerge.MergeFromFiled | strings2csv.py:107-111 | the fold keeps every entry filed under its own id |
| ContentMerge.MergeFromKeys | strings2csv.py:107-111 | the merged ids are those already merged plus those some further language defines |
| ContentMerge.MergeFromComments | strings2csv.py:108-111 | an id already merged keeps its comment; a new one takes its first defining language's comment |
| ContentMerge.MergeFromValueAt | strings2csv.py:104-111 | a merged entry has a value for a language exactly when it had one or that language defines the id. The text is that language's when it does |
| ContentMerge.MergeLangsOutcome | strings2csv.py:99-106 | a merge succeeds exactly when the file has a language and every language's file parses |
| ContentMerge.MergeLangsError | strings2csv.py:99-106 | a failed merge reports the empty language list, or the error of the first language whose file fails, every earlier one having parsed |
| ContentMerge.MergeLangsKeys | strings2csv.py:99-113 | the merged ids are exactly those some language's file defines, each filed under itself |
| ContentMerge.MergeLangsComments | strings2csv.py:99-113 | each merged entry's comment comes from the first language, in list order, whose file defines the id |
| ContentMerge.MergeLangsValues | strings2csv.py:99-113 | each merged entry has a value for exactly the languages whose file defines the id, and that file's text under each |
| Grouping.MergeStringsFiles | strings2csv.py:83-93 | the source's loop builds the grouping `Group` of the records |
| Grouping.Key | strings2csv.py:86 | the key of a record as the walk derives it (path empty or ending in `/`, name without `/`) splits back into that path and that name at its last `/` |
| Grouping.Values | strings2csv.py:93 | `values()` lists, in some order of the keys, the value of each key exactly once: the key order holds every key once and the `i`-th value is the value of the `i`-th key |
| Grouping.LastKeyed | strings2csv.py:85-91 | finds the last record filed under a key; no later record is |
| Grouping.GroupCharacterised | strings2csv.py:83-93 | a key has a group exactly when some record has that key. The group holds those records' languages in input order (never none) and the last such record's path and name |
| Grouping.LangsOfMembers | strings2csv.py:89-91 | a language is among a group's languages exactly when some record of that key has it |
| Grouping.GroupKeys | strings2csv.py:86 | every group is filed under its own `path + name` |
| Grouping.KeyInjective | strings2csv.py:86 | records with walk-shaped paths (empty or ending in `/`) and names without `/` share a key only when they share path and name |
| Grouping.GroupTotal | strings2csv.py:83-93 | every record lands in exactly one group: the groups' languages number the records |
| Languages.Flatten | strings2csv.py:61-62 | the scanned languages are exactly those of some merged file |
| Languages.Dedup | strings2csv.py:59-66 | the column list has the same languages as the scan and no duplicates |
| Languages.LanguageListFromFiles | strings2csv.py:59-66 | the source's nested loops compute the de-duplicated scan of all languages |
| Languages.DedupOrder | strings2csv.py:59-66 | the columns come in order of each language's first appearance in the scan |
| Languages.FirstIndex | strings2csv.py:63 | finds the first occurrence of a language in the scan |
| Export.BuildRow | strings2csv.py:42-49 | a row is the path, file name, object id and comment, then one cell per column: the entry's text for that language, or "" |
| Export.EntryRows | strings2csv.py:41-50 | one row of full width per entry of a merged file: exactly the rows of its entries |
| Export.Export | strings2csv.py:36-50 | the export succeeds exactly when every merged file merges. It gives the header first, one full-width row per entry and exactly the rows of the entries. Otherwise it fails with the error of the first merged file that fails |
| Export.ExportedFailure | strings2csv.py:39-40 | a merged file failing after the earlier ones merged ends the export with its error |
| Export.ExportedSuccess | strings2csv.py:39-50 | the rows left after the last merged file form the export |
| Export.ExportStep | strings2csv.py:39-50 | a merged file that merges extends the rows by exactly its entries' rows |
| Export.Strings2Csv | strings2csv.py:30-50 | the run lists the group of each key exactly once, in some key order, and exports them |
| Export.ColumnsOfRun | strings2csv.py:31-36 | the language columns of a run are exactly the languages of the records the walk found, whatever order the groups come in |

## Left out

- `main`'s option handling (`getopt`, `Usage`, `-f`, exit status 2): command-line parsing, not part of the pipeline.
- Writing the CSV: the model produces the rows `csv.writer` receives. Minimal quoting and the file handle are not modelled.
- Export.Export: on a failing merged file the source has already written the header and earlier rows to the output file. The model returns only the error.
- Export.Export: states the set and number of a merged file's rows, not their order, because the source takes them from a Python 2 dict's `values()`.
- Export.Strings2Csv: states which groups are exported, not their order, for the same reason (`result.values()`).
- The directory walk itself (`os.walk`, `os.path.relpath`, `os.path.basename`): file-system I/O. `Paths.RecordsIn` models the comprehension for one directory, given its relative path, base name and file listing. The concatenation over the walk's directories is not modelled; `Export.Strings2Csv` starts from the records.
- Opening and reading files: replaced by a lookup in `FileSystem`. Line terminators are part of the lines and removed by `strip`. The source's `IOError` becomes `MissingFile`, and unreadable files are not distinguished from missing ones.
- Multi-line comments: the source leaves them as a TODO, and the model treats their lines as the source does.
- Byte strings: Python 2 `str` is a byte string; the model works on `char`s.
- Windows path handling (`ntpath`): the model uses POSIX `os.path.join`.
- In-place updates of nested dicts (`mergedFileContents[objectId]["value"][lang] = ...`) are modelled as value updates. The entry a language contributes is shared with that language's parse result, which the source discards afterwards, so no aliasing is observable.
