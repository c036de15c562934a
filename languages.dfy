/**
 * `languageListFromFiles`: the CSV's language columns, every language of
 * every merged file once, in the order of first appearance when the merged
 * files are scanned in order and each file's languages in order.
 */
module Languages {

  import opened Model

  /** The languages of `mergedFiles`, one after the other, repeats kept. */
  function Flatten(mergedFiles: seq<MergedFile>): (langs: seq<string>)
    ensures forall lang :: lang in langs <==> exists i :: 0 <= i < |mergedFiles| && lang in mergedFiles[i].langs
    decreases |mergedFiles|
  {
    if mergedFiles == [] then []
    else
      var init := mergedFiles[..|mergedFiles| - 1];
      var last := mergedFiles[|mergedFiles| - 1];
      var langs := Flatten(init) + last.langs;
      assert forall lang :: (exists i :: 0 <= i < |mergedFiles| && lang in mergedFiles[i].langs) ==> lang in langs by {
        forall lang | exists i :: 0 <= i < |mergedFiles| && lang in mergedFiles[i].langs
          ensures lang in langs
        {
          var i :| 0 <= i < |mergedFiles| && lang in mergedFiles[i].langs;
          if i < |init| {
            assert init[i] == mergedFiles[i];
          }
        }
      }
      assert forall lang :: lang in Flatten(init) ==> exists i :: 0 <= i < |mergedFiles| && lang in mergedFiles[i].langs by {
        forall lang | lang in Flatten(init)
          ensures exists i :: 0 <= i < |mergedFiles| && lang in mergedFiles[i].langs
        {
          var i :| 0 <= i < |init| && lang in init[i].langs;
          assert mergedFiles[i] == init[i];
        }
      }
      langs
  }

  /** `s` with every repeat of an earlier element dropped. */
  function Dedup(s: seq<string>): (d: seq<string>)
    ensures forall x :: x in d <==> x in s
    ensures NoDuplicates(d)
    decreases |s|
  {
    if s == [] then []
    else
      var init := Dedup(s[..|s| - 1]);
      var x := s[|s| - 1];
      if x in init then init else init + [x]
  }

  predicate NoDuplicates(s: seq<string>)
  {
    forall i, j :: 0 <= i < j < |s| ==> s[i] != s[j]
  }

  /** The position of the first occurrence of `x` in `s`. */
  function FirstIndex(s: seq<string>, x: string): (i: nat)
    requires x in s
    ensures i < |s| && s[i] == x
    ensures forall k :: 0 <= k < i ==> s[k] != x
  {
    if s[0] == x then 0 else 1 + FirstIndex(s[1..], x)
  }

  /** The source's two nested loops. */
  method LanguageListFromFiles(mergedFiles: seq<MergedFile>) returns (result: seq<string>)
    ensures result == Dedup(Flatten(mergedFiles))
  {
    result := [];
    for i := 0 to |mergedFiles|
      invariant result == Dedup(Flatten(mergedFiles[..i]))
    {
      var mergedFile := mergedFiles[i];
      ghost var before := Flatten(mergedFiles[..i]);
      FlattenStep(mergedFiles, i);
      for j := 0 to |mergedFile.langs|
        invariant result == Dedup(before + mergedFile.langs[..j])
      {
        var lang := mergedFile.langs[j];
        ScanStep(before, mergedFile.langs, j);
        if lang !in result {
          result := result + [lang];
        }
      }
    }
    assert mergedFiles[..|mergedFiles|] == mergedFiles;
  }

  /** The outer loop's scan grows by the next merged file's languages. */
  lemma FlattenStep(mergedFiles: seq<MergedFile>, i: nat)
    requires i < |mergedFiles|
    ensures Flatten(mergedFiles[..i + 1]) == Flatten(mergedFiles[..i]) + mergedFiles[i].langs[..|mergedFiles[i].langs|]
    ensures Flatten(mergedFiles[..i]) + mergedFiles[i].langs[..0] == Flatten(mergedFiles[..i])
  {
    assert mergedFiles[i].langs[..|mergedFiles[i].langs|] == mergedFiles[i].langs;
    assert mergedFiles[..i + 1][..i] == mergedFiles[..i];
  }

  /** The inner loop keeps one more language exactly when it is new. */
  lemma ScanStep(before: seq<string>, langs: seq<string>, j: nat)
    requires j < |langs|
    ensures var d := Dedup(before + langs[..j]);
            Dedup(before + langs[..j + 1]) == if langs[j] in d then d else d + [langs[j]]
  {
    var scanned := before + langs[..j + 1];
    assert scanned[..|scanned| - 1] == before + langs[..j];
    assert scanned[|scanned| - 1] == langs[j];
  }

  /** The columns come in order of first appearance in the scan. */
  lemma {:induction false} DedupOrder(s: seq<string>, i: nat, j: nat)
    requires i < j < |Dedup(s)|
    ensures FirstIndex(s, Dedup(s)[i]) < FirstIndex(s, Dedup(s)[j])
    decreases |s|
  {
    var d := Dedup(s);
    var init := s[..|s| - 1];
    var x := s[|s| - 1];
    var di := Dedup(init);
    FirstInPrefix(s, |s| - 1, d[i]);
    if x in di || j < |di| {
      assert d[i] == di[i] && d[j] == di[j];
      DedupOrder(init, i, j);
      FirstInPrefix(s, |s| - 1, d[j]);
    } else {
      assert d[j] == x && x !in init;
      FirstAtEnd(s);
    }
  }

  /** A last element that does not occur before occurs first at the end. */
  lemma FirstAtEnd(s: seq<string>)
    requires s != [] && s[|s| - 1] !in s[..|s| - 1]
    ensures FirstIndex(s, s[|s| - 1]) == |s| - 1
  {
    assert forall m :: 0 <= m < |s| - 1 ==> s[m] == s[..|s| - 1][m];
    FirstIndexUnique(s, s[|s| - 1], |s| - 1);
  }

  /** A first occurrence inside a prefix is the first occurrence in the whole. */
  lemma FirstInPrefix(s: seq<string>, n: nat, x: string)
    requires n <= |s| && x in s[..n]
    ensures FirstIndex(s, x) == FirstIndex(s[..n], x)
  {
    var k := FirstIndex(s[..n], x);
    assert s[k] == x;
    assert forall m :: 0 <= m < k ==> s[m] == s[..n][m];
    FirstIndexUnique(s, x, k);
  }

  /** The first occurrence is the only position with `x` and none before. */
  lemma {:induction false} FirstIndexUnique(s: seq<string>, x: string, k: nat)
    requires k < |s| && s[k] == x && forall m :: 0 <= m < k ==> s[m] != x
    ensures FirstIndex(s, x) == k
    decreases |s|
  {
    if k > 0 {
      assert s[0] != x;
      FirstIndexUnique(s[1..], x, k - 1);
    }
  }
}
