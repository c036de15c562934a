/**
 * File naming in strings2csv.py: `os.path.join` as POSIX defines it, the two
 * helpers that build `path/<lang>.lproj/name`, and the record the directory
 * walk derives for each file it lists.
 */
module Paths {

  import opened PyStr
  import opened Model

  /** `posixpath.join(a, b)`: an absolute `b` replaces `a`; otherwise one `/` separates them. */
  function Join(a: string, b: string): (r: string)
    ensures EndsWith(r, b)
    ensures StartsWith(b, "/") ==> r == b
    ensures !StartsWith(b, "/") ==> StartsWith(r, a) && |r| == |a| + |Separator(a)| + |b|
    ensures !StartsWith(b, "/") && Separator(a) != "" ==> r[|a|] == '/'
  {
    if StartsWith(b, "/") then b
    else
      var r := a + Separator(a) + b;
      assert r[..|a|] == a;
      assert r[|r| - |b|..] == b;
      r
  }

  /** What `posixpath.join` puts between a relative component and what precedes it. */
  function Separator(a: string): string
  {
    if a == "" || EndsWith(a, "/") then "" else "/"
  }

  /** `mergedFilenameForLang`: the file of language `lang` for a merged file. */
  function MergedFilenameForLang(mergedFile: MergedFile, lang: string): (r: string)
    ensures EndsWith(r, mergedFile.name)
  {
    Join(Join(mergedFile.path, lang + ".lproj"), mergedFile.name)
  }

  /** `completeFilename`: the file a single record stands for. */
  function CompleteFilename(file: StringsFile): (r: string)
    ensures forall langs :: r == MergedFilenameForLang(MergedFile(file.path, langs, file.name), file.lang)
  {
    Join(Join(file.path, file.lang + ".lproj"), file.name)
  }

  /**
   * For relative components the file name is `path`, a separator where one is
   * needed, `<lang>.lproj/` and `name`.
   */
  lemma FilenameLayout(mergedFile: MergedFile, lang: string)
    requires !StartsWith(lang, "/") && !StartsWith(mergedFile.name, "/")
    ensures MergedFilenameForLang(mergedFile, lang)
         == (mergedFile.path + Separator(mergedFile.path)) + lang + (".lproj/" + mergedFile.name)
  {
    var prefix := mergedFile.path + Separator(mergedFile.path);
    var lproj := lang + ".lproj";
    assert !StartsWith(lproj, "/") by {
      assert lproj[0] == if lang == [] then '.' else lang[0];
    }
    JoinRelative(mergedFile.path, lproj);
    var dir := Join(mergedFile.path, lproj);
    assert Separator(dir) == "/" by {
      LprojSeparator(prefix + lang);
      assert dir == (prefix + lang) + ".lproj";
    }
    JoinRelative(dir, mergedFile.name);
    LayoutAssoc(prefix, lang, mergedFile.name);
  }

  /** A relative component is joined by the separator `a` needs. */
  lemma JoinRelative(a: string, b: string)
    requires !StartsWith(b, "/")
    ensures Join(a, b) == a + Separator(a) + b
  {
  }

  /** A `.lproj` directory ends in `j`, so a component joined to it gets a `/`. */
  lemma LprojSeparator(stem: string)
    ensures Separator(stem + ".lproj") == "/"
  {
    var dir := stem + ".lproj";
    assert dir[|dir| - 1..] == "j";
  }

  /** The two ways of grouping the pieces of a language file's name agree. */
  lemma LayoutAssoc(prefix: string, lang: string, name: string)
    ensures prefix + (lang + ".lproj") + "/" + name == prefix + lang + (".lproj/" + name)
  {
  }

  /** Different relative languages of one merged file name different files. */
  lemma FilenamesDistinct(mergedFile: MergedFile, lang1: string, lang2: string)
    requires !StartsWith(lang1, "/") && !StartsWith(lang2, "/") && !StartsWith(mergedFile.name, "/")
    requires lang1 != lang2
    ensures MergedFilenameForLang(mergedFile, lang1) != MergedFilenameForLang(mergedFile, lang2)
  {
    FilenameLayout(mergedFile, lang1);
    FilenameLayout(mergedFile, lang2);
    var prefix := mergedFile.path + Separator(mergedFile.path);
    if MergedFilenameForLang(mergedFile, lang1) == MergedFilenameForLang(mergedFile, lang2) {
      InfixCancel(prefix, lang1, lang2, ".lproj/" + mergedFile.name);
    }
  }

  /** Equal strings with the same prefix and suffix have the same middle. */
  lemma InfixCancel(p: string, m1: string, m2: string, s: string)
    requires p + m1 + s == p + m2 + s
    ensures m1 == m2
  {
    var w := p + m1 + s;
    assert |m1| == |m2|;
    assert w[|p|..|p| + |m1|] == m1;
    assert (p + m2 + s)[|p|..|p| + |m2|] == m2;
  }

  /** The characters `rstrip("lproj")` removes. */
  const LprojChars: set<char> := {'l', 'p', 'r', 'o', 'j'}

  /**
   * `os.path.basename(root).rstrip("lproj")[:-1]`: the language of a
   * directory.  It is a proper prefix of a non-empty name; everything
   * after the character that follows it is drawn from `l p r o j`, and that
   * character itself is not, unless the whole name is.
   */
  function LangOf(dirName: string): (lang: string)
    ensures |lang| <= |dirName| && lang == dirName[..|lang|]
    ensures dirName != [] ==> |lang| < |dirName|
    ensures forall i :: |lang| < i < |dirName| ==> dirName[i] in LprojChars
    ensures |lang| < |dirName| && dirName[|lang|] in LprojChars ==>
              lang == [] && forall i :: 0 <= i < |dirName| ==> dirName[i] in LprojChars
  {
    DropLast(RStrip(dirName, LprojChars))
  }

  /** The contract of `LangOf` leaves no freedom: any string meeting it is the language. */
  lemma LangOfUnique(dirName: string, lang: string)
    requires |lang| <= |dirName| && lang == dirName[..|lang|]
    requires dirName != [] ==> |lang| < |dirName|
    requires forall i :: |lang| < i < |dirName| ==> dirName[i] in LprojChars
    requires |lang| < |dirName| && dirName[|lang|] in LprojChars ==>
               lang == [] && forall i :: 0 <= i < |dirName| ==> dirName[i] in LprojChars
    ensures lang == LangOf(dirName)
  {
  }

  /** Whatever the language code, `<lang>.lproj` gives back `<lang>`: the `.` stops the strip. */
  lemma LangOfLproj(lang: string)
    ensures LangOf(lang + ".lproj") == lang
  {
    var s := lang + ".lproj";
    var r := RStrip(s, LprojChars);
    assert s[|lang|] == '.' && '.' !in LprojChars;
    assert |r| > |lang|;
    forall i | |lang| < i < |s| ensures s[i] in LprojChars {
      assert s[|lang| + 1..] == "lproj";
      assert s[i] == "lproj"[i - |lang| - 1];
    }
    assert |r| == |lang| + 1;
    assert r == lang + ".";
  }

  /**
   * `os.path.relpath(root).rstrip(os.path.basename(root))`: the walk's path
   * field, the relative path without its longest tail of characters that
   * occur in the base name.
   */
  function DirPath(relRoot: string, baseName: string): (path: string)
    ensures |path| <= |relRoot| && path == relRoot[..|path|]
    ensures forall i :: |path| <= i < |relRoot| ==> relRoot[i] in baseName
    ensures path == [] || path[|path| - 1] !in baseName
  {
    RStrip(relRoot, CharsOf(baseName))
  }

  /** Under a parent directory the strip removes exactly the base name and keeps the `/`. */
  lemma DirPathOfChild(parent: string, baseName: string)
    requires '/' !in baseName
    ensures DirPath(parent + "/" + baseName, baseName) == parent + "/"
  {
    var s := parent + "/" + baseName;
    var r := DirPath(s, baseName);
    assert s[|parent|] == '/' && '/' !in CharsOf(baseName);
    assert |r| > |parent|;
    forall i | |parent| < i < |s| ensures s[i] in CharsOf(baseName) {
      assert s[i] == baseName[i - |parent| - 1];
    }
    assert |r| == |parent| + 1;
    assert r == s[..|parent| + 1];
  }

  /** At the top of the walk the path is empty. */
  lemma DirPathOfTop(baseName: string)
    ensures DirPath(baseName, baseName) == ""
  {
  }

  /** The listed file names that end in `.strings`, in listing order. */
  function StringsNames(files: seq<string>): (names: seq<string>)
    ensures |names| <= |files|
    ensures forall name :: name in names <==> name in files && EndsWith(name, ".strings")
    ensures forall name :: multiset(names)[name] == if EndsWith(name, ".strings") then multiset(files)[name] else 0
  {
    if files == [] then []
    else
      assert files == [files[0]] + files[1..];
      assert forall name :: name in files <==> name == files[0] || name in files[1..];
      (if EndsWith(files[0], ".strings") then [files[0]] else []) + StringsNames(files[1..])
  }

  /** The filter keeps listing order: the names of two listings one after the other. */
  lemma {:induction false} StringsNamesAppend(a: seq<string>, b: seq<string>)
    ensures StringsNames(a + b) == StringsNames(a) + StringsNames(b)
    decreases |a|
  {
    if a == [] {
      assert a + b == b;
    } else {
      var ab := a + b;
      assert ab[0] == a[0] && ab[1..] == a[1..] + b;
      var head := if EndsWith(a[0], ".strings") then [a[0]] else [];
      assert StringsNames(ab) == head + StringsNames(ab[1..]);
      StringsNamesAppend(a[1..], b);
      ConcatAssoc(head, StringsNames(a[1..]), StringsNames(b));
    }
  }

  lemma ConcatAssoc(x: seq<string>, y: seq<string>, z: seq<string>)
    ensures x + (y + z) == (x + y) + z
  {
  }

  /**
   * The comprehension of `getStringsFiles` for one directory of the walk:
   * one record per listed file whose name ends in `.strings`, in listing
   * order, each with the directory's path and language.
   */
  function RecordsIn(relRoot: string, baseName: string, files: seq<string>): (r: seq<StringsFile>)
    ensures |r| == |StringsNames(files)|
    ensures forall i :: 0 <= i < |r| ==>
              r[i].path == DirPath(relRoot, baseName) && r[i].lang == LangOf(baseName) && r[i].name == StringsNames(files)[i]
  {
    var names := StringsNames(files);
    seq(|names|, i requires 0 <= i < |names| => StringsFile(DirPath(relRoot, baseName), LangOf(baseName), names[i]))
  }
}
