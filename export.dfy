/**
 * The body of `main` without its I/O: the header row, one row per entry of
 * every merged file, and the whole run from the walk's records to the rows.
 * The rows are what the source hands to `csv.writer`; the CSV quoting
 * itself is not part of this model.  The entries of one merged file come
 * out of a Python 2 dict in unspecified order, so the rows of a file are
 * produced in an arbitrary order and their set is what the contracts state.
 */
module Export {

  import opened Wrappers
  import opened Model
  import opened ContentMerge
  import opened Languages
  import opened Grouping

  /** The columns before the languages. */
  const FixedColumns: seq<string> := ["path", "file", "object-id", "comment"]

  /** The header row for the language columns `languages`. */
  function Header(languages: seq<string>): seq<string>
  {
    FixedColumns + languages
  }

  /** The cell of `entry` in the column of `lang`: its text, or empty when the language lacks it. */
  function Cell(entry: Entry, lang: string): string
  {
    if lang in entry.value then entry.value[lang] else ""
  }

  /** The row of `entry` of `mergedFile` under the columns `languages`. */
  function Row(mergedFile: MergedFile, entry: Entry, languages: seq<string>): seq<string>
  {
    [mergedFile.path, mergedFile.name, entry.objectId, entry.comment]
      + seq(|languages|, i requires 0 <= i < |languages| => Cell(entry, languages[i]))
  }

  /** The loop that builds `values` and the row around it. */
  method BuildRow(mergedFileInfo: MergedFile, entry: Entry, languages: seq<string>) returns (row: seq<string>)
    ensures row == Row(mergedFileInfo, entry, languages)
    ensures |row| == |FixedColumns| + |languages|
    ensures row[..4] == [mergedFileInfo.path, mergedFileInfo.name, entry.objectId, entry.comment]
    ensures forall i :: 0 <= i < |languages| ==>
              (languages[i] in entry.value ==> row[4 + i] == entry.value[languages[i]])
              && (languages[i] !in entry.value ==> row[4 + i] == "")
  {
    var values: seq<string> := [];
    for i := 0 to |languages|
      invariant |values| == i
      invariant forall k :: 0 <= k < i ==> values[k] == Cell(entry, languages[k])
    {
      var lang := languages[i];
      if lang in entry.value {
        values := values + [entry.value[lang]];
      } else {
        values := values + [""];
      }
    }
    row := [mergedFileInfo.path, mergedFileInfo.name, entry.objectId, entry.comment] + values;
  }

  /** The rows of the entries `contents` of `mergedFile` whose ids lie in `ids`. */
  ghost function FileRows(mergedFile: MergedFile, contents: map<string, Entry>, ids: set<string>, languages: seq<string>)
    : set<seq<string>>
  {
    set id | id in contents && id in ids :: Row(mergedFile, contents[id], languages)
  }

  /** The merge of every merged file of `merged`, in order. */
  ghost function Outcomes(fs: FileSystem, merged: seq<MergedFile>): seq<Result<map<string, Entry>, Error>>
  {
    seq(|merged|, i requires 0 <= i < |merged| => MergeSpec(fs, merged[i]))
  }

  /** The rows of every merged file of `merged` whose merge, in `outcomes`, succeeds. */
  ghost function ExportedRows(merged: seq<MergedFile>, outcomes: seq<Result<map<string, Entry>, Error>>,
                              languages: seq<string>): set<seq<string>>
    requires |outcomes| == |merged|
    decreases |merged|
  {
    if merged == [] then {}
    else
      var n := |merged| - 1;
      ExportedRows(merged[..n], outcomes[..n], languages)
        + match outcomes[n]
            case Success(m) => FileRows(merged[n], m, m.Keys, languages)
            case Failure(_) => {}
  }

  /** The number of entries over the successful merges of `outcomes`. */
  ghost function EntryCount(outcomes: seq<Result<map<string, Entry>, Error>>): nat
    decreases |outcomes|
  {
    if outcomes == [] then 0
    else
      var n := |outcomes| - 1;
      EntryCount(outcomes[..n]) + match outcomes[n]
                                    case Success(m) => |m|
                                    case Failure(_) => 0
  }

  /** Every merge of `outcomes` succeeds. */
  ghost predicate AllMerge(outcomes: seq<Result<map<string, Entry>, Error>>)
  {
    forall i :: 0 <= i < |outcomes| ==> outcomes[i].Success?
  }

  /**
   * What the export of `merged`, whose merges are `outcomes`, produces: the
   * rows when every merged file merges, the header first, one row of fixed
   * width per entry and no other; else the error of the first merged file
   * that fails.
   */
  ghost predicate Exported(merged: seq<MergedFile>, outcomes: seq<Result<map<string, Entry>, Error>>,
                           r: Result<seq<seq<string>>, Error>)
    requires |outcomes| == |merged|
  {
    var languages := Dedup(Flatten(merged));
    (r.Success? <==> AllMerge(outcomes))
    && (r.Failure? ==>
          exists i :: 0 <= i < |outcomes| && outcomes[i] == Failure(r.error) && AllMerge(outcomes[..i]))
    && (r.Success? ==>
          |r.value| == 1 + EntryCount(outcomes)
          && r.value[0] == Header(languages)
          && (forall k :: 1 <= k < |r.value| ==> |r.value[k]| == |FixedColumns| + |languages|)
          && (forall row :: row in r.value[1..] <==> row in ExportedRows(merged, outcomes, languages)))
  }

  /** The header and the loop over the merged files. */
  method Export(fs: FileSystem, merged: seq<MergedFile>) returns (r: Result<seq<seq<string>>, Error>)
    ensures Exported(merged, Outcomes(fs, merged), r)
  {
    ghost var outcomes := Outcomes(fs, merged);
    var languages := LanguageListFromFiles(merged);
    var rows := [Header(languages)];
    for i := 0 to |merged|
      invariant RowsSoFar(merged, outcomes, i, rows, languages)
    {
      var mergedFileInfo := merged[i];
      var mergedFileContent := GetMergedStringsFileContents(fs, mergedFileInfo);
      assert outcomes[i] == mergedFileContent;
      if mergedFileContent.Failure? {
        r := Failure(mergedFileContent.error);
        ExportedFailure(merged, outcomes, i, rows, languages, r);
        return;
      }
      var block := EntryRows(mergedFileInfo, mergedFileContent.value, languages);
      ExportStep(merged, outcomes, i, rows, block, languages);
      rows := rows + block;
    }
    r := Success(rows);
    ExportedSuccess(merged, outcomes, rows, languages);
  }

  /** What the loop has built after the first `i` merged files, all of which merged. */
  ghost predicate RowsSoFar(merged: seq<MergedFile>, outcomes: seq<Result<map<string, Entry>, Error>>, i: nat,
                            rows: seq<seq<string>>, languages: seq<string>)
  {
    |outcomes| == |merged| && i <= |merged|
    && |rows| == 1 + EntryCount(outcomes[..i])
    && rows[0] == Header(languages)
    && (forall k :: 1 <= k < |rows| ==> |rows[k]| == |FixedColumns| + |languages|)
    && (forall row :: row in rows[1..] <==> row in ExportedRows(merged[..i], outcomes[..i], languages))
    && AllMerge(outcomes[..i])
  }

  /** A merged file that fails after all earlier ones merged ends the export with its error. */
  lemma ExportedFailure(merged: seq<MergedFile>, outcomes: seq<Result<map<string, Entry>, Error>>, i: nat,
                        rows: seq<seq<string>>, languages: seq<string>, r: Result<seq<seq<string>>, Error>)
    requires RowsSoFar(merged, outcomes, i, rows, languages) && i < |merged|
    requires outcomes[i].Failure? && r == Failure(outcomes[i].error)
    ensures Exported(merged, outcomes, r)
  {
    assert !AllMerge(outcomes) by {
      assert !outcomes[i].Success?;
    }
  }

  /** The rows the loop leaves after the last merged file are the export. */
  lemma ExportedSuccess(merged: seq<MergedFile>, outcomes: seq<Result<map<string, Entry>, Error>>,
                        rows: seq<seq<string>>, languages: seq<string>)
    requires RowsSoFar(merged, outcomes, |merged|, rows, languages) && languages == Dedup(Flatten(merged))
    ensures Exported(merged, outcomes, Success(rows))
  {
    assert merged[..|merged|] == merged;
    assert outcomes[..|merged|] == outcomes;
  }

  /** A merged file that merges adds its block of rows. */
  lemma ExportStep(merged: seq<MergedFile>, outcomes: seq<Result<map<string, Entry>, Error>>, i: nat,
                   rows: seq<seq<string>>, block: seq<seq<string>>, languages: seq<string>)
    requires RowsSoFar(merged, outcomes, i, rows, languages) && i < |merged| && outcomes[i].Success?
    requires |block| == |outcomes[i].value|
    requires forall k :: 0 <= k < |block| ==> |block[k]| == |FixedColumns| + |languages|
    requires forall row :: row in block <==> row in FileRows(merged[i], outcomes[i].value, outcomes[i].value.Keys, languages)
    ensures RowsSoFar(merged, outcomes, i + 1, rows + block, languages)
  {
    PrefixStep(merged, i);
    PrefixStep(outcomes, i);
    AppendRows(rows, block, ExportedRows(merged[..i], outcomes[..i], languages),
               FileRows(merged[i], outcomes[i].value, outcomes[i].value.Keys, languages));
  }

  /** The prefix of length `i + 1` is the prefix of length `i` and element `i`. */
  lemma PrefixStep<T>(s: seq<T>, i: nat)
    requires i < |s|
    ensures s[..i + 1][..i] == s[..i] && s[..i + 1][i] == s[i] && |s[..i + 1]| == i + 1
  {
  }

  /** Appending a block of rows joins the row sets. */
  lemma AppendRows(before: seq<seq<string>>, block: seq<seq<string>>, done: set<seq<string>>, added: set<seq<string>>)
    requires |before| >= 1
    requires forall row :: row in before[1..] <==> row in done
    requires forall row :: row in block <==> row in added
    ensures forall row :: row in (before + block)[1..] <==> row in done + added
  {
    assert (before + block)[1..] == before[1..] + block;
  }

  /** The loop `for entry in mergedFileContent`: one row per entry, in some order. */
  method EntryRows(mergedFileInfo: MergedFile, contents: map<string, Entry>, languages: seq<string>)
    returns (block: seq<seq<string>>)
    ensures |block| == |contents|
    ensures forall k :: 0 <= k < |block| ==> |block[k]| == |FixedColumns| + |languages|
    ensures forall row :: row in block <==> row in FileRows(mergedFileInfo, contents, contents.Keys, languages)
  {
    block := [];
    var pending := contents.Keys;
    while pending != {}
      invariant pending <= contents.Keys
      invariant |block| + |pending| == |contents.Keys|
      invariant forall k :: 0 <= k < |block| ==> |block[k]| == |FixedColumns| + |languages|
      invariant forall row :: row in block <==> row in FileRows(mergedFileInfo, contents, contents.Keys - pending, languages)
      decreases pending
    {
      var objectId :| objectId in pending;
      ghost var done := contents.Keys - pending;
      var row := BuildRow(mergedFileInfo, contents[objectId], languages);
      block := block + [row];
      pending := pending - {objectId};
      assert contents.Keys - pending == done + {objectId};
      assert FileRows(mergedFileInfo, contents, done + {objectId}, languages)
          == FileRows(mergedFileInfo, contents, done, languages) + {row};
    }
    assert contents.Keys - pending == contents.Keys;
  }

  /**
   * The run of `main` from the records the directory walk found: grouping,
   * the dict's values in some order (`keys`, each group's key once), and the
   * export.
   */
  method Strings2Csv(fs: FileSystem, stringsFiles: seq<StringsFile>)
    returns (mergedStringsFiles: seq<MergedFile>, ghost keys: seq<string>, r: Result<seq<seq<string>>, Error>)
    ensures |mergedStringsFiles| == |keys| == |Group(stringsFiles)|
    ensures forall key :: key in keys <==> key in Group(stringsFiles)
    ensures forall i, j :: 0 <= i < j < |keys| ==> keys[i] != keys[j]
    ensures forall i :: 0 <= i < |keys| ==> keys[i] in Group(stringsFiles) && mergedStringsFiles[i] == Group(stringsFiles)[keys[i]]
    ensures forall d :: d in mergedStringsFiles <==> d in Group(stringsFiles).Values
    ensures Exported(mergedStringsFiles, Outcomes(fs, mergedStringsFiles), r)
  {
    var groups := MergeStringsFiles(stringsFiles);
    mergedStringsFiles, keys := Values(groups);
    r := Export(fs, mergedStringsFiles);
  }

  /**
   * The language columns of a run are exactly the languages of the records
   * the walk found, whatever order the groups come in.
   */
  lemma ColumnsOfRun(stringsFiles: seq<StringsFile>, mergedStringsFiles: seq<MergedFile>, lang: string)
    requires forall d :: d in mergedStringsFiles <==> d in Group(stringsFiles).Values
    ensures lang in Dedup(Flatten(mergedStringsFiles))
            <==> exists i :: 0 <= i < |stringsFiles| && stringsFiles[i].lang == lang
  {
    var groups := Group(stringsFiles);
    if exists j :: 0 <= j < |mergedStringsFiles| && lang in mergedStringsFiles[j].langs {
      var j :| 0 <= j < |mergedStringsFiles| && lang in mergedStringsFiles[j].langs;
      var d := mergedStringsFiles[j];
      assert d in groups.Values;
      var key :| key in groups && groups[key] == d;
      GroupCharacterised(stringsFiles, key);
      LangsOfMembers(stringsFiles, key, lang);
    }
    if exists i :: 0 <= i < |stringsFiles| && stringsFiles[i].lang == lang {
      var i :| 0 <= i < |stringsFiles| && stringsFiles[i].lang == lang;
      var key := Key(stringsFiles[i]);
      GroupCharacterised(stringsFiles, key);
      LangsOfMembers(stringsFiles, key, lang);
      assert groups[key] in groups.Values;
      var j :| 0 <= j < |mergedStringsFiles| && mergedStringsFiles[j] == groups[key];
      assert lang in mergedStringsFiles[j].langs;
    }
  }
}
