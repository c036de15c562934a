/**
 * The few Python 2 `str` built-ins strings2csv.py relies on, modelled on
 * `seq<char>`.  Python's `strip`, `lstrip(chars)` and `rstrip(chars)` remove
 * the longest run of characters drawn from a SET at one end of the string;
 * they do not remove a fixed prefix or suffix, and the functions below keep
 * that meaning.
 */
module PyStr {

  import opened Wrappers

  /** The characters the argument-less `str.strip()` of Python 2 removes. */
  const Whitespace: set<char> := {' ', '\t', '\n', '\r', '\U{B}', '\U{C}'}

  /** The set of characters occurring in `s`, as `rstrip(s)` sees its argument. */
  function CharsOf(s: string): set<char>
  {
    set c | c in s
  }

  predicate StartsWith(s: string, prefix: string)
  {
    |prefix| <= |s| && s[..|prefix|] == prefix
  }

  predicate EndsWith(s: string, suffix: string)
  {
    |suffix| <= |s| && s[|s| - |suffix|..] == suffix
  }

  /** `s.lstrip(chars)`: drops the longest prefix made of characters in `cs`. */
  function LStrip(s: string, cs: set<char>): (r: string)
    ensures |r| <= |s| && r == s[|s| - |r|..]
    ensures r == [] || r[0] !in cs
    ensures forall i :: 0 <= i < |s| - |r| ==> s[i] in cs
  {
    if |s| > 0 && s[0] in cs then LStrip(s[1..], cs) else s
  }

  /** `s.rstrip(chars)`: drops the longest suffix made of characters in `cs`. */
  function RStrip(s: string, cs: set<char>): (r: string)
    ensures |r| <= |s| && r == s[..|r|]
    ensures r == [] || r[|r| - 1] !in cs
    ensures forall i :: |r| <= i < |s| ==> s[i] in cs
  {
    if |s| > 0 && s[|s| - 1] in cs then RStrip(s[..|s| - 1], cs) else s
  }

  /**
   * `s.strip()`: whitespace removed at both ends.  The result is a slice of
   * `s` with only whitespace outside it, and it neither starts nor ends with
   * whitespace, so it is the longest such slice.
   */
  function Strip(s: string): (r: string)
    ensures exists i, j :: 0 <= i <= j <= |s| && r == s[i..j]
                           && forall k :: 0 <= k < i || j <= k < |s| ==> s[k] in Whitespace
    ensures r == [] || (r[0] !in Whitespace && r[|r| - 1] !in Whitespace)
    ensures r == [] <==> forall i :: 0 <= i < |s| ==> s[i] in Whitespace
  {
    var l := LStrip(s, Whitespace);
    var r := RStrip(l, Whitespace);
    // Both directions go through `l`: it is empty exactly when `s` is all whitespace.
    assert l != [] ==> l[0] == s[|s| - |l|] && l[0] !in Whitespace;
    assert l != [] ==> r != [] && r[0] == l[0];
    StripSlice(s, l, r, Whitespace);
    r
  }

  /**
   * A part `l` left after dropping a prefix drawn from `cs`, and a part `r`
   * of it left after dropping a suffix drawn from `cs`, is a slice of `s`
   * with only characters of `cs` around it.
   */
  lemma StripSlice(s: string, l: string, r: string, cs: set<char>)
    requires |l| <= |s| && l == s[|s| - |l|..] && forall k :: 0 <= k < |s| - |l| ==> s[k] in cs
    requires |r| <= |l| && r == l[..|r|] && forall k :: |r| <= k < |l| ==> l[k] in cs
    ensures exists i, j :: 0 <= i <= j <= |s| && r == s[i..j]
                           && forall k :: 0 <= k < i || j <= k < |s| ==> s[k] in cs
  {
    var i := |s| - |l|;
    var j := i + |r|;
    assert r == s[i..j];
    forall k | j <= k < |s| ensures s[k] in cs {
      assert s[k] == l[k - i];
    }
  }

  /** The index of the first occurrence of `c` in `s`, as `s.find(c)` gives it. */
  function Find(s: string, c: char): (r: Option<nat>)
    ensures r.Some? ==> r.value < |s| && s[r.value] == c && c !in s[..r.value]
    ensures r.None? <==> c !in s
  {
    if s == [] then None
    else if s[0] == c then Some(0)
    else match Find(s[1..], c)
      case None => None
      case Some(k) =>
        assert s[..k + 1] == [s[0]] + s[1..][..k];
        Some(k + 1)
  }

  /**
   * `s.split(c, 1)`: one piece when `c` does not occur, otherwise the text
   * before and the text after the first `c`.
   */
  function SplitOnce(s: string, c: char): (parts: seq<string>)
    ensures |parts| == 1 || |parts| == 2
    ensures |parts| == 1 <==> c !in s
    ensures |parts| == 1 ==> parts[0] == s
    ensures |parts| == 2 ==> parts[0] + [c] + parts[1] == s && c !in parts[0]
  {
    match Find(s, c)
      case None => [s]
      case Some(k) =>
        assert s[..k] + [c] + s[k + 1..] == s;
        [s[..k], s[k + 1..]]
  }

  /** The slice `s[:-1]`: everything but the last character, and "" for "". */
  function DropLast(s: string): (r: string)
    ensures |s| > 0 ==> |r| == |s| - 1 && s == r + [s[|s| - 1]]
    ensures |s| == 0 ==> r == []
  {
    if |s| == 0 then [] else s[..|s| - 1]
  }
}
