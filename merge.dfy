/**
 * `getMergedStringsFileContents`: parse the base language of a merged file,
 * then fold every further language's entries into the same map.  A new id
 * enters with its whole entry; for an id already present only that
 * language's value is added, so the comment stays the one of the first
 * language that defined the id.
 *
 * The fold is stated over any `parse` from a language to that language's
 * parse result, so that its lemmas need not look inside the parser; the
 * merge of a file uses `LangParser`, which opens the language's file in the
 * file system and runs `Parser.Parse` on it.
 */
module ContentMerge {

  import opened Wrappers
  import opened Model
  import opened Paths
  import opened Parser

  /** Opening and parsing the file of language `lang` of `mergedFile`. */
  function ParseLang(fs: FileSystem, mergedFile: MergedFile, lang: string): (r: Result<map<string, Entry>, Error>)
    ensures r.Success? ==> WellShaped(r.value, lang) && HasLang(r.value, lang)
    ensures MergedFilenameForLang(mergedFile, lang) !in fs ==> r == Failure(MissingFile(MergedFilenameForLang(mergedFile, lang)))
  {
    var filename := MergedFilenameForLang(mergedFile, lang);
    if filename in fs then Parse(fs[filename], lang) else Failure(MissingFile(filename))
  }

  /** `ParseLang` for every language of one merged file. */
  function LangParser(fs: FileSystem, mergedFile: MergedFile): (parse: string -> Result<map<string, Entry>, Error>)
    ensures Shaped(parse)
  {
    lang => ParseLang(fs, mergedFile, lang)
  }

  /** A parse result per language, each well shaped for its language. */
  ghost predicate Shaped(parse: string -> Result<map<string, Entry>, Error>)
  {
    forall lang :: parse(lang).Success? ==> WellShaped(parse(lang).value, lang) && HasLang(parse(lang).value, lang)
  }

  /** Every entry of `current` carries a value for `lang`, as the source's `entry["value"][lang]` needs. */
  ghost predicate HasLang(current: map<string, Entry>, lang: string)
  {
    forall id :: id in current ==> lang in current[id].value
  }

  /** The inner loop over one language's entries, all of them. */
  function FoldLang(merged: map<string, Entry>, current: map<string, Entry>, lang: string): map<string, Entry>
    requires HasLang(current, lang)
  {
    map id | id in merged.Keys + current.Keys ::
      if id !in merged then current[id]
      else if id in current then merged[id].(value := merged[id].value[lang := current[id].value[lang]])
      else merged[id]
  }

  /** The outer loop over the remaining languages `langs`, starting from `merged`. */
  function MergeFrom(parse: string -> Result<map<string, Entry>, Error>, merged: map<string, Entry>, langs: seq<string>)
    : Result<map<string, Entry>, Error>
    requires Shaped(parse)
    decreases |langs|
  {
    if langs == [] then Success(merged)
    else match parse(langs[0])
      case Failure(e) => Failure(e)
      case Success(current) => MergeFrom(parse, FoldLang(merged, current, langs[0]), langs[1..])
  }

  /** The entries of a merged file with languages `langs`: the base language first, then the others in order. */
  function MergeLangs(parse: string -> Result<map<string, Entry>, Error>, langs: seq<string>): Result<map<string, Entry>, Error>
    requires Shaped(parse)
  {
    if |langs| == 0 then Failure(NoLanguages)
    else match parse(langs[0])
      case Failure(e) => Failure(e)
      case Success(base) => MergeFrom(parse, base, langs[1..])
  }

  /** The entries of one merged file of the file system. */
  function MergeSpec(fs: FileSystem, mergedFile: MergedFile): Result<map<string, Entry>, Error>
  {
    MergeLangs(LangParser(fs, mergedFile), mergedFile.langs)
  }

  /** The source's function, with file opening replaced by a lookup in `fs`. */
  method GetMergedStringsFileContents(fs: FileSystem, mergedFile: MergedFile)
    returns (r: Result<map<string, Entry>, Error>)
    ensures r == MergeSpec(fs, mergedFile)
  {
    if |mergedFile.langs| == 0 {
      return Failure(NoLanguages);
    }
    ghost var parse := LangParser(fs, mergedFile);
    var baseFilename := MergedFilenameForLang(mergedFile, mergedFile.langs[0]);
    if baseFilename !in fs {
      return Failure(MissingFile(baseFilename));
    }
    var base := GetStringsFileContents(fs[baseFilename], mergedFile.langs[0]);
    if base.Failure? {
      return Failure(base.error);
    }
    var mergedFileContents := base.value;
    var languages := mergedFile.langs[1..];
    assert languages[0..] == languages;
    for i := 0 to |languages|
      invariant MergeSpec(fs, mergedFile) == MergeFrom(parse, mergedFileContents, languages[i..])
    {
      var lang := languages[i];
      var filename := MergedFilenameForLang(mergedFile, lang);
      if filename !in fs {
        return Failure(MissingFile(filename));
      }
      var currentFileContents := GetStringsFileContents(fs[filename], lang);
      if currentFileContents.Failure? {
        return Failure(currentFileContents.error);
      }
      var current := currentFileContents.value;
      assert parse(lang) == Success(current);
      assert languages[i..][0] == lang && languages[i..][1..] == languages[i + 1..];
      mergedFileContents := FoldEntries(mergedFileContents, current, lang);
    }
    return Success(mergedFileContents);
  }

  /** The entries of `current` whose ids lie in `ids`. */
  function Restrict(current: map<string, Entry>, ids: set<string>): map<string, Entry>
  {
    map id | id in current && id in ids :: current[id]
  }

  /**
   * The inner loop `for (objectId, entry) in currentFileContents.iteritems()`.
   * The ids are taken in an arbitrary order, as a Python dict yields them;
   * the result does not depend on it.
   */
  method FoldEntries(merged: map<string, Entry>, current: map<string, Entry>, lang: string)
    returns (r: map<string, Entry>)
    requires HasLang(current, lang)
    ensures r == FoldLang(merged, current, lang)
  {
    r := merged;
    var pending := current.Keys;
    while pending != {}
      invariant pending <= current.Keys
      invariant r == FoldLang(merged, Restrict(current, current.Keys - pending), lang)
      decreases pending
    {
      var objectId :| objectId in pending;
      ghost var done := current.Keys - pending;
      FoldOneMore(merged, current, done, objectId, lang);
      var entry := current[objectId];
      if objectId !in r {
        r := r[objectId := entry];
      } else {
        var existing := r[objectId];
        r := r[objectId := existing.(value := existing.value[lang := entry.value[lang]])];
      }
      pending := pending - {objectId};
      assert current.Keys - pending == done + {objectId};
    }
    assert Restrict(current, current.Keys) == current;
  }

  /** Folding one more id of `current` updates the merged map at that id only. */
  lemma FoldOneMore(start: map<string, Entry>, current: map<string, Entry>, done: set<string>, id: string, lang: string)
    requires HasLang(current, lang) && id in current && id !in done
    ensures var before := FoldLang(start, Restrict(current, done), lang);
            FoldLang(start, Restrict(current, done + {id}), lang)
            == before[id := if id !in before then current[id]
                            else before[id].(value := before[id].value[lang := current[id].value[lang]])]
  {
    var r0 := Restrict(current, done);
    var r1 := Restrict(current, done + {id});
    assert r1 == r0[id := current[id]];
    var before := FoldLang(start, r0, lang);
    var after := FoldLang(start, r1, lang);
    assert id !in r0;
    assert id in before <==> id in start;
    assert id in before ==> before[id] == start[id];
    var expected := before[id := if id !in before then current[id]
                                 else before[id].(value := before[id].value[lang := current[id].value[lang]])];
    assert after.Keys == expected.Keys;
    forall k | k in after.Keys ensures after[k] == expected[k] {
      if k != id {
        assert k in r1 <==> k in r0;
        assert k in r1 ==> r1[k] == r0[k];
      }
    }
  }

  // ---------------------------------------------------------------------
  // What the merge computes, stated per language

  /** Language `lang` parses and defines `id`. */
  predicate Defines(parse: string -> Result<map<string, Entry>, Error>, lang: string, id: string)
  {
    parse(lang).Success? && id in parse(lang).value
  }

  /** The position of the first language of `langs` that defines `id`. */
  function FirstDefiner(parse: string -> Result<map<string, Entry>, Error>, langs: seq<string>, id: string): (i: nat)
    requires exists lang :: lang in langs && Defines(parse, lang, id)
    ensures i < |langs| && Defines(parse, langs[i], id)
    ensures forall k :: 0 <= k < i ==> !Defines(parse, langs[k], id)
    decreases |langs|
  {
    if Defines(parse, langs[0], id) then 0
    else
      assert exists lang :: lang in langs[1..] && Defines(parse, lang, id) by {
        var lang :| lang in langs && Defines(parse, lang, id);
        assert lang in langs[1..];
      }
      1 + FirstDefiner(parse, langs[1..], id)
  }

  /** Starting from the base language's entries is starting from no entries at all. */
  lemma MergeLangsFromEmpty(parse: string -> Result<map<string, Entry>, Error>, langs: seq<string>)
    requires Shaped(parse) && |langs| > 0
    ensures MergeLangs(parse, langs) == MergeFrom(parse, map[], langs)
  {
    if parse(langs[0]).Success? {
      var base := parse(langs[0]).value;
      assert FoldLang(map[], base, langs[0]) == base;
    }
  }

  /** The fold succeeds exactly when every language parses, else fails as the first one that does not. */
  lemma {:induction false} MergeFromOutcome(parse: string -> Result<map<string, Entry>, Error>,
                                            merged: map<string, Entry>, langs: seq<string>)
    requires Shaped(parse)
    ensures MergeFrom(parse, merged, langs).Success? <==> forall lang :: lang in langs ==> parse(lang).Success?
    ensures MergeFrom(parse, merged, langs).Failure? ==>
              exists i :: 0 <= i < |langs| && parse(langs[i]).Failure?
                && MergeFrom(parse, merged, langs).error == parse(langs[i]).error
                && forall k :: 0 <= k < i ==> parse(langs[k]).Success?
    decreases |langs|
  {
    if langs != [] {
      assert forall lang :: lang in langs <==> lang == langs[0] || lang in langs[1..];
      if parse(langs[0]).Success? {
        var next := FoldLang(merged, parse(langs[0]).value, langs[0]);
        MergeFromOutcome(parse, next, langs[1..]);
        if MergeFrom(parse, merged, langs).Failure? {
          var i :| 0 <= i < |langs[1..]| && parse(langs[1..][i]).Failure?
                && MergeFrom(parse, next, langs[1..]).error == parse(langs[1..][i]).error
                && forall k :: 0 <= k < i ==> parse(langs[1..][k]).Success?;
          assert parse(langs[i + 1]).Failure?;
          assert forall k :: 1 <= k < i + 1 ==> langs[k] == langs[1..][k - 1];
        }
      }
    }
  }

  /** Entries of the fold's result are filed under their own ids. */
  lemma {:induction false} MergeFromFiled(parse: string -> Result<map<string, Entry>, Error>,
                                          merged: map<string, Entry>, langs: seq<string>)
    requires Shaped(parse) && MergeFrom(parse, merged, langs).Success?
    requires forall id :: id in merged ==> merged[id].objectId == id
    ensures var m := MergeFrom(parse, merged, langs).value;
            forall id :: id in m ==> m[id].objectId == id
    decreases |langs|
  {
    if langs != [] {
      var current := parse(langs[0]).value;
      MergeFromFiled(parse, FoldLang(merged, current, langs[0]), langs[1..]);
    }
  }

  /** Key union: an id is merged exactly when it was already there or some language defines it. */
  lemma {:induction false} MergeFromKeys(parse: string -> Result<map<string, Entry>, Error>,
                                         merged: map<string, Entry>, langs: seq<string>)
    requires Shaped(parse) && MergeFrom(parse, merged, langs).Success?
    ensures var m := MergeFrom(parse, merged, langs).value;
            forall id :: id in m <==> id in merged || exists lang :: lang in langs && Defines(parse, lang, id)
    decreases |langs|
  {
    if langs != [] {
      var first := langs[0];
      var rest := langs[1..];
      var current := parse(first).value;
      var next := FoldLang(merged, current, first);
      assert MergeFrom(parse, merged, langs) == MergeFrom(parse, next, rest);
      MergeFromKeys(parse, next, rest);
      assert next.Keys == merged.Keys + current.Keys;
      forall id
        ensures (exists lang :: lang in langs && Defines(parse, lang, id))
                <==> id in current || exists lang :: lang in rest && Defines(parse, lang, id)
      {
        if exists lang :: lang in langs && Defines(parse, lang, id) {
          var lang :| lang in langs && Defines(parse, lang, id);
          if lang != first {
            assert lang in rest;
          }
        }
        if exists lang :: lang in rest && Defines(parse, lang, id) {
          var lang :| lang in rest && Defines(parse, lang, id);
          assert lang in langs;
        }
        if id in current {
          assert first in langs && Defines(parse, first, id);
        }
      }
    }
  }

  /** Comments: an id already merged keeps its comment; a new one takes its first definer's. */
  lemma {:induction false} MergeFromComments(parse: string -> Result<map<string, Entry>, Error>,
                                             merged: map<string, Entry>, langs: seq<string>)
    requires Shaped(parse) && MergeFrom(parse, merged, langs).Success?
    ensures var m := MergeFrom(parse, merged, langs).value;
            forall id :: id in m && id in merged ==> m[id].comment == merged[id].comment
    ensures var m := MergeFrom(parse, merged, langs).value;
            forall id :: id in m && id !in merged ==>
              (exists lang :: lang in langs && Defines(parse, lang, id))
              && m[id].comment == parse(langs[FirstDefiner(parse, langs, id)]).value[id].comment
    decreases |langs|
  {
    MergeFromKeys(parse, merged, langs);
    if langs != [] {
      var first := langs[0];
      var rest := langs[1..];
      var current := parse(first).value;
      var next := FoldLang(merged, current, first);
      MergeFromComments(parse, next, rest);
      var m := MergeFrom(parse, merged, langs).value;
      forall id | id in m && id !in merged
        ensures m[id].comment == parse(langs[FirstDefiner(parse, langs, id)]).value[id].comment
      {
        if id in current {
          assert FirstDefiner(parse, langs, id) == 0;
        } else {
          assert exists lang :: lang in rest && Defines(parse, lang, id);
          assert FirstDefiner(parse, langs, id) == 1 + FirstDefiner(parse, rest, id);
        }
      }
    }
  }

  /** One language's fold at one id and one language. */
  lemma FoldLangAt(merged: map<string, Entry>, current: map<string, Entry>, lang: string, id: string, other: string)
    requires WellShaped(current, lang) && HasLang(current, lang)
    ensures var next := FoldLang(merged, current, lang);
            (id in next <==> id in merged || id in current)
            && (id in next ==>
                  (other in next[id].value <==> (id in merged && other in merged[id].value) || (other == lang && id in current)))
            && (id in next && other in next[id].value ==>
                  next[id].value[other] == if other == lang && id in current then current[id].value[lang] else merged[id].value[other])
  {
  }

  /** Values: the languages of one merged entry and the text under one language. */
  lemma {:induction false} MergeFromValueAt(parse: string -> Result<map<string, Entry>, Error>,
                                            merged: map<string, Entry>, langs: seq<string>, id: string, lang: string)
    requires Shaped(parse) && MergeFrom(parse, merged, langs).Success?
    requires id in MergeFrom(parse, merged, langs).value
    ensures var v := MergeFrom(parse, merged, langs).value[id].value;
            (lang in v <==> (id in merged && lang in merged[id].value) || (lang in langs && Defines(parse, lang, id)))
            && (lang in v ==>
                  v[lang] == if lang in langs && Defines(parse, lang, id)
                             then parse(lang).value[id].value[lang]
                             else merged[id].value[lang])
    decreases |langs|
  {
    if langs != [] {
      var first := langs[0];
      var rest := langs[1..];
      var current := parse(first).value;
      var next := FoldLang(merged, current, first);
      assert MergeFrom(parse, merged, langs) == MergeFrom(parse, next, rest);
      MergeFromValueAt(parse, next, rest, id, lang);
      FoldLangAt(merged, current, first, id, lang);
      assert lang in langs <==> lang == first || lang in rest;
    }
  }

  /** The content merge succeeds exactly when there is a language and every language's file parses. */
  lemma MergeLangsOutcome(parse: string -> Result<map<string, Entry>, Error>, langs: seq<string>)
    requires Shaped(parse)
    ensures MergeLangs(parse, langs).Success? <==> |langs| > 0 && forall lang :: lang in langs ==> parse(lang).Success?
  {
    if |langs| > 0 {
      MergeLangsFromEmpty(parse, langs);
      MergeFromOutcome(parse, map[], langs);
    }
  }

  /** A failed merge reports the empty language list, or the first language whose file fails. */
  lemma MergeLangsError(parse: string -> Result<map<string, Entry>, Error>, langs: seq<string>)
    requires Shaped(parse) && MergeLangs(parse, langs).Failure?
    ensures |langs| == 0 ==> MergeLangs(parse, langs).error == NoLanguages
    ensures |langs| > 0 ==>
              exists i :: 0 <= i < |langs| && parse(langs[i]).Failure?
                && MergeLangs(parse, langs).error == parse(langs[i]).error
                && forall k :: 0 <= k < i ==> parse(langs[k]).Success?
  {
    if |langs| > 0 {
      MergeLangsFromEmpty(parse, langs);
      MergeFromOutcome(parse, map[], langs);
    }
  }

  /**
   * The merged ids are exactly those some language's file defines, and each
   * entry is filed under its own id.
   */
  lemma MergeLangsKeys(parse: string -> Result<map<string, Entry>, Error>, langs: seq<string>, m: map<string, Entry>)
    requires Shaped(parse) && MergeLangs(parse, langs) == Success(m)
    ensures forall id :: id in m <==> exists lang :: lang in langs && Defines(parse, lang, id)
    ensures forall id :: id in m ==> m[id].objectId == id
  {
    MergeLangsFromEmpty(parse, langs);
    MergeFromKeys(parse, map[], langs);
    MergeFromFiled(parse, map[], langs);
  }

  /**
   * An entry's comment is the one the first language in `langs` order that
   * defines the id gave it; later languages never replace it.
   */
  lemma MergeLangsComments(parse: string -> Result<map<string, Entry>, Error>, langs: seq<string>, m: map<string, Entry>)
    requires Shaped(parse) && MergeLangs(parse, langs) == Success(m)
    ensures forall id :: id in m ==>
              (exists lang :: lang in langs && Defines(parse, lang, id))
              && m[id].comment == parse(langs[FirstDefiner(parse, langs, id)]).value[id].comment
  {
    MergeLangsFromEmpty(parse, langs);
    MergeFromComments(parse, map[], langs);
  }

  /**
   * An entry holds a value for exactly the languages whose file defines the
   * id, and under each the value that language's file gives.
   */
  lemma MergeLangsValues(parse: string -> Result<map<string, Entry>, Error>, langs: seq<string>, m: map<string, Entry>)
    requires Shaped(parse) && MergeLangs(parse, langs) == Success(m)
    ensures forall id, lang :: id in m ==>
              (lang in m[id].value <==> lang in langs && Defines(parse, lang, id))
              && (lang in m[id].value ==> m[id].value[lang] == parse(lang).value[id].value[lang])
  {
    MergeLangsFromEmpty(parse, langs);
    var empty: map<string, Entry> := map[];
    forall id, lang | id in m
      ensures lang in m[id].value <==> lang in langs && Defines(parse, lang, id)
      ensures lang in m[id].value ==> m[id].value[lang] == parse(lang).value[id].value[lang]
    {
      MergeFromValueAt(parse, empty, langs, id, lang);
      assert id !in empty;
    }
  }
}
