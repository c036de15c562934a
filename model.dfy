/**
 * The records strings2csv.py passes between its functions.  The source keeps
 * each of them as a Python dict with fixed keys; here each is a datatype
 * whose fields carry those keys' names.
 */
module Model {

  /** One `<lang>.lproj/<name>.strings` file found by the directory walk. */
  datatype StringsFile = StringsFile(path: string, lang: string, name: string)

  /** All languages found for one `path` + `name`, in discovery order. */
  datatype MergedFile = MergedFile(path: string, langs: seq<string>, name: string)

  /**
   * One translatable string: the dict with keys "comment", "object-id" and
   * "value", the last mapping a language code to the translated text.
   */
  datatype Entry = Entry(comment: string, objectId: string, value: map<string, string>)

  /** The exceptions that end a run of the tool. */
  datatype Error =
    | MissingFile(filename: string) // open() of a language file that does not exist
    | UnsplitLine(line: string)     // `splitLine[1]` on a `;` line without `=`
    | NoLanguages                   // `mergedFile["langs"][0]` on an empty list

  /** The file system as the parser sees it: a file name to the lines it holds. */
  type FileSystem = map<string, seq<string>>
}
