/**
 * `mergeStringsFiles`: the records of the directory walk grouped by the key
 * `path + name`, one merged file per key, whose languages are the records'
 * languages in the order the walk found them.  The source returns the
 * groups as `result.values()`, whose order Python 2 leaves unspecified;
 * `Values` lists them in an arbitrary order and the model claims none.
 */
module Grouping {

  import opened Model

  /**
   * The key the source files a record under.  For a record as the walk
   * derives it (a path that is empty or ends in `/`, a name without `/`)
   * the key splits back into path and name at its last `/`.
   */
  function Key(file: StringsFile): (key: string)
    ensures (file.path == [] || file.path[|file.path| - 1] == '/') && '/' !in file.name ==>
              key[..DirLength(key)] == file.path && key[DirLength(key)..] == file.name
  {
    var key := file.path + file.name;
    if (file.path == [] || file.path[|file.path| - 1] == '/') && '/' !in file.name then
      DirPart(file.path, file.name);
      key
    else
      key
  }

  /** The groups after the records `files`, one record at a time. */
  function Group(files: seq<StringsFile>): map<string, MergedFile>
    decreases |files|
  {
    if files == [] then map[]
    else
      var groups := Group(files[..|files| - 1]);
      var file := files[|files| - 1];
      var key := Key(file);
      if key in groups then groups[key := MergedFile(file.path, groups[key].langs + [file.lang], file.name)]
      else groups[key := MergedFile(file.path, [file.lang], file.name)]
  }

  /** The source's loop over the records. */
  method MergeStringsFiles(files: seq<StringsFile>) returns (result: map<string, MergedFile>)
    ensures result == Group(files)
  {
    result := map[];
    for i := 0 to |files|
      invariant result == Group(files[..i])
    {
      var file := files[i];
      var resultKey := file.path + file.name;
      assert files[..i + 1][..i] == files[..i];
      if resultKey in result {
        result := result[resultKey := MergedFile(file.path, result[file.path + file.name].langs + [file.lang], file.name)];
      } else {
        result := result[resultKey := MergedFile(file.path, [file.lang], file.name)];
      }
    }
    assert files[..|files|] == files;
  }

  /**
   * `dict.values()`: the value of every key once, in some order.  `ks` is
   * the order the keys were taken in: each key once, and `vs[i]` is the
   * value of `ks[i]`.
   */
  method Values<K, V(==)>(m: map<K, V>) returns (vs: seq<V>, ghost ks: seq<K>)
    ensures |ks| == |vs| == |m|
    ensures forall k :: k in ks <==> k in m
    ensures forall i, j :: 0 <= i < j < |ks| ==> ks[i] != ks[j]
    ensures forall i :: 0 <= i < |vs| ==> ks[i] in m && vs[i] == m[ks[i]]
    ensures forall v :: v in vs <==> v in m.Values
  {
    vs, ks := [], [];
    var pending := m.Keys;
    while pending != {}
      invariant pending <= m.Keys
      invariant |ks| == |vs| && |vs| + |pending| == |m.Keys|
      invariant forall k :: k in ks <==> k in m.Keys - pending
      invariant forall i, j :: 0 <= i < j < |ks| ==> ks[i] != ks[j]
      invariant forall i :: 0 <= i < |vs| ==> ks[i] in m && vs[i] == m[ks[i]]
      decreases pending
    {
      var k :| k in pending;
      assert k !in ks;
      vs, ks := vs + [m[k]], ks + [k];
      pending := pending - {k};
    }
    forall v | v in m.Values ensures v in vs {
      var k :| k in m && m[k] == v;
      assert k in m.Keys - pending;
      var i :| 0 <= i < |ks| && ks[i] == k;
      assert vs[i] == v;
    }
  }

  // ---------------------------------------------------------------------
  // What the grouping computes, stated per key

  /** The languages of the records filed under `key`, in input order. */
  function LangsOf(files: seq<StringsFile>, key: string): seq<string>
    decreases |files|
  {
    if files == [] then []
    else LangsOf(files[..|files| - 1], key) + (if Key(files[|files| - 1]) == key then [files[|files| - 1].lang] else [])
  }

  /** The position of the last record filed under `key`, or -1. */
  function LastKeyed(files: seq<StringsFile>, key: string): (j: int)
    ensures -1 <= j < |files|
    ensures j >= 0 ==> Key(files[j]) == key
    ensures forall k :: j < k < |files| ==> Key(files[k]) != key
    decreases |files|
  {
    if files == [] then -1
    else if Key(files[|files| - 1]) == key then |files| - 1
    else LastKeyed(files[..|files| - 1], key)
  }

  /**
   * One group per key some record has; the group holds the languages of
   * the records with that key, in input order, never none, and the path and
   * name of the last of them.
   */
  lemma {:induction false} GroupCharacterised(files: seq<StringsFile>, key: string)
    ensures key in Group(files) <==> LastKeyed(files, key) >= 0
    ensures key !in Group(files) ==> LangsOf(files, key) == []
    ensures key in Group(files) ==>
              var last := files[LastKeyed(files, key)];
              Group(files)[key] == MergedFile(last.path, LangsOf(files, key), last.name)
              && LangsOf(files, key) != []
    decreases |files|
  {
    if files != [] {
      var init := files[..|files| - 1];
      var file := files[|files| - 1];
      GroupCharacterised(init, key);
      if Key(file) == key {
        assert LangsOf(files, key) == LangsOf(init, key) + [file.lang];
      } else {
        assert LangsOf(files, key) == LangsOf(init, key);
        assert LastKeyed(files, key) == LastKeyed(init, key);
      }
    }
  }

  /** A language is among a key's languages exactly when some record with that key has it. */
  lemma {:induction false} LangsOfMembers(files: seq<StringsFile>, key: string, lang: string)
    ensures lang in LangsOf(files, key) <==> exists i :: 0 <= i < |files| && Key(files[i]) == key && files[i].lang == lang
    decreases |files|
  {
    if files != [] {
      var n := |files| - 1;
      var init := files[..n];
      LangsOfMembers(init, key, lang);
      assert forall i :: 0 <= i < n ==> files[i] == init[i];
    }
  }

  /** Every group is filed under its own key. */
  lemma GroupKeys(files: seq<StringsFile>, key: string)
    requires key in Group(files)
    ensures Group(files)[key].path + Group(files)[key].name == key
  {
    GroupCharacterised(files, key);
  }

  /**
   * The key `path + name` tells records apart when, as the walk derives
   * them, a path is empty or ends in `/` and a name holds no `/`.
   */
  lemma KeyInjective(a: StringsFile, b: StringsFile)
    requires a.path == [] || a.path[|a.path| - 1] == '/'
    requires b.path == [] || b.path[|b.path| - 1] == '/'
    requires '/' !in a.name && '/' !in b.name
    requires Key(a) == Key(b)
    ensures a.path == b.path && a.name == b.name
  {
    var k := Key(a);
    DirPart(a.path, a.name);
    DirPart(b.path, b.name);
    assert a.path == k[..|a.path|];
    assert b.path == k[..|b.path|];
    assert a.name == k[|a.path|..];
    assert b.name == k[|b.path|..];
  }

  /** The length of `s` up to and including its last `/`, or 0 without one. */
  function DirLength(s: string): (n: nat)
    ensures n <= |s| && (n > 0 ==> s[n - 1] == '/')
    ensures forall i :: n <= i < |s| ==> s[i] != '/'
    decreases |s|
  {
    if s == [] then 0
    else if s[|s| - 1] == '/' then |s|
    else DirLength(s[..|s| - 1])
  }

  /** The directory part of `path + name` is `path`. */
  lemma {:induction false} DirPart(path: string, name: string)
    requires path == [] || path[|path| - 1] == '/'
    requires '/' !in name
    ensures DirLength(path + name) == |path|
    decreases |name|
  {
    if name == [] {
      assert path + name == path;
    } else {
      var s := path + name;
      var init := name[..|name| - 1];
      assert s[|s| - 1] == name[|name| - 1];
      assert s[..|s| - 1] == path + init;
      DirPart(path, init);
    }
  }

  /** The total number of languages over all groups. */
  ghost function TotalLangs(groups: map<string, MergedFile>): nat
    decreases |groups|
  {
    if groups == map[] then 0
    else
      var key := Pick(groups);
      |groups[key].langs| + TotalLangs(groups - {key})
  }

  ghost function Pick(groups: map<string, MergedFile>): (key: string)
    requires groups != map[]
    ensures key in groups
  {
    var key :| key in groups; key
  }

  /** `TotalLangs` may take any key first. */
  lemma {:induction false} TotalRemove(groups: map<string, MergedFile>, key: string)
    requires key in groups
    ensures TotalLangs(groups) == |groups[key].langs| + TotalLangs(groups - {key})
    decreases |groups|
  {
    var first := Pick(groups);
    if first != key {
      TotalRemove(groups - {first}, key);
      TotalRemove(groups - {key}, first);
      assert groups - {first} - {key} == groups - {key} - {first};
    }
  }

  /** Every record lands in exactly one group: the languages of all groups number the records. */
  lemma {:induction false} GroupTotal(files: seq<StringsFile>)
    ensures TotalLangs(Group(files)) == |files|
    decreases |files|
  {
    if files != [] {
      var init := files[..|files| - 1];
      GroupTotal(init);
      var groups := Group(init);
      var key := Key(files[|files| - 1]);
      var next := Group(files);
      TotalRemove(next, key);
      assert next - {key} == groups - {key};
      if key in groups {
        TotalRemove(groups, key);
      } else {
        assert groups - {key} == groups;
      }
    }
  }
}
