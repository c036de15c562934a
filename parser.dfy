/**
 * `getStringsFileContents`: the line-by-line parser of one `.strings` file.
 *
 * The parser is a two-state machine over stripped lines.  Its state is the
 * flag `hasComment` and the pending `comment`; its output is a map from
 * object id to entry.  `Run` is the machine as a left fold of `Step`, `Parse`
 * its result, and `GetStringsFileContents` the loop that the source writes,
 * proved to compute `Parse`.  The lemmas at the end characterise `Parse`
 * without the machine: which ids it finds, which line wins, which comment
 * an entry carries and when it fails.
 */
module Parser {

  import opened Wrappers
  import opened PyStr
  import opened Model

  /** The key ending `"<id>.text" ` that the source treats specially. */
  const TextSuffix: string := ".text\" "
  /** `rstrip(".text\" ")` strips this set of characters, not the suffix. */
  const TextIdChars: set<char> := {'.', 't', 'e', 'x', '"', ' '}
  /** `rstrip("\" ")` on an ordinary key. */
  const IdChars: set<char> := {'"', ' '}
  /** `lstrip("\"")` on every key. */
  const QuoteChars: set<char> := {'"'}
  /** `lstrip(" \"")` and `rstrip("\";")` on the value part. */
  const ValueLeadChars: set<char> := {' ', '"'}
  const ValueTrailChars: set<char> := {'"', ';'}

  /** The object id derived from the text before the first `=`. */
  function ObjectId(key: string): (id: string)
    ensures id == [] || id[0] != '"'
    ensures id == [] || id[|id| - 1] !in IdChars
    ensures EndsWith(key, TextSuffix) ==> id == [] || id[|id| - 1] !in TextIdChars
  {
    var unquoted := LStrip(key, QuoteChars);
    var cs := if EndsWith(key, TextSuffix) then TextIdChars else IdChars;
    var id := RStrip(unquoted, cs);
    KeyEnds(unquoted, id, cs);
    id
  }

  /** A right strip by a set covering `IdChars` of an unquoted key leaves a clean id. */
  lemma KeyEnds(unquoted: string, id: string, cs: set<char>)
    requires unquoted == [] || unquoted[0] !in QuoteChars
    requires |id| <= |unquoted| && id == unquoted[..|id|]
    requires id == [] || id[|id| - 1] !in cs
    requires IdChars <= cs
    ensures id == [] || id[0] != '"'
    ensures id == [] || id[|id| - 1] !in IdChars
  {
    if id != [] {
      assert id[0] == unquoted[0];
    }
  }

  /** The translated text derived from the text after the first `=`. */
  function Value(part: string): (v: string)
    ensures v == [] || (v[0] !in ValueLeadChars && v[|v| - 1] !in ValueTrailChars)
  {
    RStrip(LStrip(part, ValueLeadChars), ValueTrailChars)
  }

  /** An id with no leading quote and no trailing quote or space. */
  predicate CleanId(id: string)
  {
    id == [] || (id[0] != '"' && id[|id| - 1] !in IdChars)
  }

  /** A value with no leading space or quote and no trailing quote or semicolon. */
  predicate CleanValue(v: string)
  {
    v == [] || (v[0] !in ValueLeadChars && v[|v| - 1] !in ValueTrailChars)
  }

  /** What one line of the file is, in the order the source tests for it. */
  datatype Line =
    | Blank                                      // nothing but whitespace
    | CommentLine(text: string)                  // starts with `/*` or `//`
    | Assignment(objectId: string, value: string) // ends with `;` and holds an `=`
    | Unsplit(text: string)                      // ends with `;` but holds no `=`
    | Ignored                                    // anything else

  function Classify(raw: string): (k: Line)
    ensures k.Assignment? ==> CleanId(k.objectId) && CleanValue(k.value)
    ensures k.CommentLine? ==> StartsWith(k.text, "/*") || StartsWith(k.text, "//")
  {
    ClassifyStripped(Strip(raw))
  }

  /** `Classify` once the line has been stripped. */
  function ClassifyStripped(line: string): (k: Line)
    ensures k.Assignment? ==> CleanId(k.objectId) && CleanValue(k.value)
    ensures k.CommentLine? ==> StartsWith(k.text, "/*") || StartsWith(k.text, "//")
  {
    if line == [] then Blank
    else if StartsWith(line, "/*") || StartsWith(line, "//") then CommentLine(line)
    else if EndsWith(line, ";") then
      var splitLine := SplitOnce(line, '=');
      if |splitLine| < 2 then Unsplit(line) else Assignment(ObjectId(splitLine[0]), Value(splitLine[1]))
    else Ignored
  }

  /** Every line of a file, classified. */
  function Classified(lines: seq<string>): (ks: seq<Line>)
    ensures |ks| == |lines| && forall j :: 0 <= j < |lines| ==> ks[j] == Classify(lines[j])
  {
    seq(|lines|, j requires 0 <= j < |lines| => Classify(lines[j]))
  }

  /** The loop's variables: `hasComment`, `comment` (None also while unbound) and `fileContents`. */
  datatype State = State(hasComment: bool, comment: Option<string>, contents: map<string, Entry>)

  const Start: State := State(false, None, map[])

  /** The comment an assignment made in state `st` receives. */
  function CommentOf(st: State): string
  {
    if st.hasComment && st.comment != None then st.comment.value else ""
  }

  /** One iteration of the loop. */
  function Step(st: State, k: Line, lang: string): Result<State, Error>
  {
    match k
      case Blank => Success(st)
      case Ignored => Success(st)
      case CommentLine(text) => Success(st.(hasComment := true, comment := Some(text)))
      case Unsplit(text) => Failure(UnsplitLine(text))
      case Assignment(id, v) =>
        Success(State(false, None, st.contents[id := Entry(CommentOf(st), id, map[lang := v])]))
  }

  /** The loop over classified lines as a left fold of `Step`; the first failure ends it. */
  function Run(ks: seq<Line>, lang: string): Result<State, Error>
    decreases |ks|
  {
    if ks == [] then Success(Start)
    else match Run(ks[..|ks| - 1], lang)
      case Failure(e) => Failure(e)
      case Success(st) => Step(st, ks[|ks| - 1], lang)
  }

  /** Every entry is filed under its own object id and holds exactly one language. */
  ghost predicate WellShaped(contents: map<string, Entry>, lang: string)
  {
    forall id :: id in contents ==>
      contents[id].objectId == id && lang in contents[id].value
      && forall other :: other in contents[id].value ==> other == lang
  }

  /** The dictionary `getStringsFileContents(filename, lang)` returns for a file holding `lines`. */
  function Parse(lines: seq<string>, lang: string): (r: Result<map<string, Entry>, Error>)
    ensures r.Success? ==> WellShaped(r.value, lang)
  {
    match Run(Classified(lines), lang)
      case Failure(e) => Failure(e)
      case Success(st) =>
        RunWellShaped(Classified(lines), lang);
        Success(st.contents)
  }

  /** The source's loop, over the lines of an already opened file. */
  method GetStringsFileContents(lines: seq<string>, lang: string) returns (r: Result<map<string, Entry>, Error>)
    ensures r == Parse(lines, lang)
  {
    ghost var ks := Classified(lines);
    var hasComment := false;
    var comment: Option<string> := None;
    var fileContents: map<string, Entry> := map[];
    for i := 0 to |lines|
      invariant Run(ks[..i], lang) == Success(State(hasComment, comment, fileContents))
    {
      ghost var st := State(hasComment, comment, fileContents);
      var line := Strip(lines[i]);
      StrippedStep(ks, i, lang, st, line);
      if line == [] {
        continue;
      }
      if StartsWith(line, "/*") || StartsWith(line, "//") {
        hasComment := true;
        comment := Some(line);
        continue;
      }
      if EndsWith(line, ";") {
        var splitLine := SplitOnce(line, '=');
        var objectId := ObjectId(splitLine[0]);
        var entryComment := if hasComment && comment != None then comment.value else "";
        if |splitLine| < 2 {
          ParseOfRun(lines, lang);
          return Failure(UnsplitLine(line));
        }
        fileContents := fileContents[objectId := Entry(entryComment, objectId, map[lang := Value(splitLine[1])])];
        hasComment := false;
        comment := None;
      }
    }
    TakeAll(ks);
    ParseOfRun(lines, lang);
    r := Success(fileContents);
  }

  /** Taking every element of a sequence gives the sequence back. */
  lemma TakeAll(ks: seq<Line>)
    ensures ks[..|ks|] == ks
  {
  }

  /** `Parse` is the fold's outcome, with the final state's entries on success. */
  lemma ParseOfRun(lines: seq<string>, lang: string)
    ensures Run(Classified(lines), lang).Failure? ==> Parse(lines, lang) == Failure(Run(Classified(lines), lang).error)
    ensures Run(Classified(lines), lang).Success? ==> Parse(lines, lang) == Success(Run(Classified(lines), lang).value.contents)
  {
  }

  /** Every state the fold reaches files each entry under its id with exactly the file's language. */
  lemma {:induction false} RunWellShaped(ks: seq<Line>, lang: string)
    requires Run(ks, lang).Success?
    ensures WellShaped(Run(ks, lang).value.contents, lang)
    decreases |ks|
  {
    if ks != [] {
      RunWellShaped(ks[..|ks| - 1], lang);
    }
  }

  /**
   * Line `i` of `ks`, stripped to `line`, moves the fold from `st` as the
   * loop body's branches do, tested in the same order.
   */
  lemma StrippedStep(ks: seq<Line>, i: nat, lang: string, st: State, line: string)
    requires i < |ks| && Run(ks[..i], lang) == Success(st) && ks[i] == ClassifyStripped(line)
    ensures line == [] ==> Run(ks[..i + 1], lang) == Success(st)
    ensures line != [] && (StartsWith(line, "/*") || StartsWith(line, "//")) ==>
              Run(ks[..i + 1], lang) == Success(st.(hasComment := true, comment := Some(line)))
    ensures line != [] && !StartsWith(line, "/*") && !StartsWith(line, "//") && !EndsWith(line, ";") ==>
              Run(ks[..i + 1], lang) == Success(st)
    ensures line != [] && !StartsWith(line, "/*") && !StartsWith(line, "//") && EndsWith(line, ";") && |SplitOnce(line, '=')| < 2 ==>
              Run(ks, lang) == Failure(UnsplitLine(line))
    ensures line != [] && !StartsWith(line, "/*") && !StartsWith(line, "//") && EndsWith(line, ";") && |SplitOnce(line, '=')| == 2 ==>
              var id := ObjectId(SplitOnce(line, '=')[0]);
              Run(ks[..i + 1], lang) == Success(State(false, None, st.contents[id := Entry(CommentOf(st), id, map[lang := Value(SplitOnce(line, '=')[1])])]))
  {
    assert Reached(ks, i, lang, st);
    if line == [] {
      StrippedBlank(line);
      SkipStep(ks, i, lang, st);
    } else if StartsWith(line, "/*") || StartsWith(line, "//") {
      StrippedComment(line);
      CommentStep(ks, i, lang, st, line);
    } else if !EndsWith(line, ";") {
      StrippedIgnored(line);
      SkipStep(ks, i, lang, st);
    } else if |SplitOnce(line, '=')| < 2 {
      StrippedUnsplit(line);
      UnsplitStep(ks, i, lang, st, line);
    } else {
      StrippedAssignment(line);
      AssignStep(ks, i, lang, st, ObjectId(SplitOnce(line, '=')[0]), Value(SplitOnce(line, '=')[1]));
    }
  }

  /** The fold has read the first `i` lines of `ks` and reached `st`, with line `i` still to come. */
  ghost predicate Reached(ks: seq<Line>, i: nat, lang: string, st: State)
  {
    i < |ks| && Run(ks[..i], lang) == Success(st)
  }

  /** A blank or ignored line leaves the state as it is. */
  lemma SkipStep(ks: seq<Line>, i: nat, lang: string, st: State)
    requires Reached(ks, i, lang, st) && (ks[i] == Blank || ks[i] == Ignored)
    ensures Run(ks[..i + 1], lang) == Success(st)
  {
    RunStep(ks, i, lang);
  }

  /** A comment line becomes the pending comment. */
  lemma CommentStep(ks: seq<Line>, i: nat, lang: string, st: State, text: string)
    requires Reached(ks, i, lang, st) && ks[i] == CommentLine(text)
    ensures Run(ks[..i + 1], lang) == Success(st.(hasComment := true, comment := Some(text)))
  {
    RunStep(ks, i, lang);
  }

  /** A `;` line without `=` ends the whole file with its error. */
  lemma UnsplitStep(ks: seq<Line>, i: nat, lang: string, st: State, text: string)
    requires Reached(ks, i, lang, st) && ks[i] == Unsplit(text)
    ensures Run(ks, lang) == Failure(UnsplitLine(text))
  {
    RunStep(ks, i, lang);
    RunFailureSticks(ks, i + 1, lang);
  }

  /** An assignment files its entry with the pending comment and clears the comment. */
  lemma AssignStep(ks: seq<Line>, i: nat, lang: string, st: State, id: string, v: string)
    requires Reached(ks, i, lang, st) && ks[i] == Assignment(id, v)
    ensures Run(ks[..i + 1], lang) == Success(State(false, None, st.contents[id := Entry(CommentOf(st), id, map[lang := v])]))
  {
    RunStep(ks, i, lang);
  }

  /** One more line extends the fold by one `Step`. */
  lemma RunStep(ks: seq<Line>, i: nat, lang: string)
    requires i < |ks| && Run(ks[..i], lang).Success?
    ensures Run(ks[..i + 1], lang) == Step(Run(ks[..i], lang).value, ks[i], lang)
  {
    assert ks[..i + 1][..i] == ks[..i];
  }

  /** Once a prefix of the file fails, the whole file fails with the same error. */
  lemma {:induction false} RunFailureSticks(ks: seq<Line>, n: nat, lang: string)
    requires n <= |ks| && Run(ks[..n], lang).Failure?
    ensures Run(ks, lang) == Run(ks[..n], lang)
    decreases |ks|
  {
    if n == |ks| {
      assert ks[..n] == ks;
    } else {
      var front := ks[..|ks| - 1];
      assert front[..n] == ks[..n];
      RunFailureSticks(front, n, lang);
    }
  }

  // ---------------------------------------------------------------------
  // A description of Run that does not mention the state machine

  /** A line that ends the pending-comment window: a comment or an assignment. */
  predicate IsMarker(k: Line)
  {
    k.CommentLine? || k.Assignment?
  }

  /** The index of the last comment or assignment line, or -1 when there is none. */
  function LastMarker(ks: seq<Line>): (j: int)
    ensures -1 <= j < |ks|
    ensures j >= 0 ==> IsMarker(ks[j])
    ensures forall k :: j < k < |ks| ==> !IsMarker(ks[k])
    decreases |ks|
  {
    if ks == [] then -1
    else if IsMarker(ks[|ks| - 1]) then |ks| - 1
    else LastMarker(ks[..|ks| - 1])
  }

  /** The comment line seen since the last assignment, the most recent one if several. */
  function PendingAfter(ks: seq<Line>): Option<string>
  {
    var j := LastMarker(ks);
    if j >= 0 && ks[j].CommentLine? then Some(ks[j].text) else None
  }

  /** The comment an assignment after `ks` receives: the pending one, else "". */
  function CommentFor(ks: seq<Line>): string
  {
    match PendingAfter(ks)
      case Some(text) => text
      case None => ""
  }

  predicate AssignsId(k: Line, id: string)
  {
    k.Assignment? && k.objectId == id
  }

  /** The index of the last assignment to `id`, or -1 when there is none. */
  function LastAssign(ks: seq<Line>, id: string): (j: int)
    ensures -1 <= j < |ks|
    ensures j >= 0 ==> AssignsId(ks[j], id)
    ensures forall k :: j < k < |ks| ==> !AssignsId(ks[k], id)
    decreases |ks|
  {
    if ks == [] then -1
    else if AssignsId(ks[|ks| - 1], id) then |ks| - 1
    else LastAssign(ks[..|ks| - 1], id)
  }

  /**
   * Comment association: the machine has a pending comment exactly when a
   * comment line came after the last assignment, and it is the latest one.
   */
  lemma {:induction false} PendingComment(ks: seq<Line>, lang: string)
    requires Run(ks, lang).Success?
    ensures Run(ks, lang).value.comment == PendingAfter(ks)
    ensures Run(ks, lang).value.hasComment == PendingAfter(ks).Some?
    ensures CommentOf(Run(ks, lang).value) == CommentFor(ks)
    decreases |ks|
  {
    if ks != [] {
      var front := ks[..|ks| - 1];
      PendingComment(front, lang);
      if !IsMarker(ks[|ks| - 1]) {
        assert LastMarker(ks) == LastMarker(front);
        if LastMarker(front) >= 0 {
          assert ks[LastMarker(front)] == front[LastMarker(front)];
        }
      }
    }
  }

  /**
   * What the fold builds: an id is a key exactly when some line assigns it,
   * and its entry comes from the LAST such line (last wins), with the comment
   * pending before that line and the line's value under `lang`.
   */
  lemma {:induction false} ParseEntries(ks: seq<Line>, lang: string)
    requires Run(ks, lang).Success?
    ensures forall id :: id in Run(ks, lang).value.contents <==> LastAssign(ks, id) >= 0
    ensures forall id :: id in Run(ks, lang).value.contents ==>
              Run(ks, lang).value.contents[id]
              == Entry(CommentFor(ks[..LastAssign(ks, id)]), id, map[lang := ks[LastAssign(ks, id)].value])
    ensures WellShaped(Run(ks, lang).value.contents, lang)
    decreases |ks|
  {
    if ks != [] {
      var front := ks[..|ks| - 1];
      var last := ks[|ks| - 1];
      ParseEntries(front, lang);
      var contents := Run(ks, lang).value.contents;
      forall id | true
        ensures id in contents <==> LastAssign(ks, id) >= 0
        ensures id in contents ==>
                  contents[id] == Entry(CommentFor(ks[..LastAssign(ks, id)]), id,
                                        map[lang := ks[LastAssign(ks, id)].value])
      {
        if AssignsId(last, id) {
          PendingComment(front, lang);
        } else {
          var j := LastAssign(front, id);
          assert LastAssign(ks, id) == j;
          if j >= 0 {
            assert ks[j] == front[j];
            assert ks[..j] == front[..j];
          }
        }
      }
    }
  }

  /**
   * The failure case: the fold fails exactly when some line is a `;` line
   * without `=`, and the error names the first such line.
   */
  lemma {:induction false} RunFailure(ks: seq<Line>, lang: string)
    ensures Run(ks, lang).Failure? <==> exists j :: 0 <= j < |ks| && ks[j].Unsplit?
    ensures Run(ks, lang).Failure? ==>
              exists j :: 0 <= j < |ks| && ks[j].Unsplit? && Run(ks, lang).error == UnsplitLine(ks[j].text)
                && forall k :: 0 <= k < j ==> !ks[k].Unsplit?
    decreases |ks|
  {
    if ks != [] {
      var front := ks[..|ks| - 1];
      RunFailure(front, lang);
      assert forall k :: 0 <= k < |front| ==> front[k] == ks[k];
      if Run(front, lang).Failure? {
        var j :| 0 <= j < |front| && front[j].Unsplit? && Run(front, lang).error == UnsplitLine(front[j].text)
                && forall k :: 0 <= k < j ==> !front[k].Unsplit?;
        assert ks[j].Unsplit?;
      }
    }
  }

  /**
   * `Parse` in terms of the file's own lines: it fails exactly on a `;` line
   * without `=`; otherwise every id some line assigns is a key, filed under
   * itself, from the last line assigning it, with the comment pending before
   * that line and the stripping guarantees of `CleanId` and `CleanValue`.
   */
  lemma ParseCharacterised(lines: seq<string>, lang: string)
    ensures Parse(lines, lang).Failure? <==> exists j :: 0 <= j < |lines| && Classify(lines[j]).Unsplit?
    ensures Parse(lines, lang).Success? ==>
              forall id :: id in Parse(lines, lang).value <==> LastAssign(Classified(lines), id) >= 0
    ensures Parse(lines, lang).Success? ==>
              forall id :: id in Parse(lines, lang).value ==>
                var j := LastAssign(Classified(lines), id);
                Parse(lines, lang).value[id]
                == Entry(CommentFor(Classified(lines)[..j]), id, map[lang := Classify(lines[j]).value])
    ensures Parse(lines, lang).Success? ==>
              forall id :: id in Parse(lines, lang).value ==>
                CleanId(id) && CleanValue(Parse(lines, lang).value[id].value[lang])
  {
    var ks := Classified(lines);
    RunFailure(ks, lang);
    if Run(ks, lang).Success? {
      ParseEntries(ks, lang);
      forall id | id in Parse(lines, lang).value
        ensures CleanId(id) && CleanValue(Parse(lines, lang).value[id].value[lang])
      {
        var j := LastAssign(ks, id);
        assert AssignsId(ks[j], id);
      }
    } else {
      var j :| 0 <= j < |ks| && ks[j].Unsplit?;
      assert Classify(lines[j]).Unsplit?;
    }
  }

  /** Blank lines and lines the parser does not recognise change neither the map nor the comment state. */
  lemma InertLines(ks: seq<Line>, k: Line, lang: string)
    requires k.Blank? || k.Ignored?
    ensures Run(ks + [k], lang) == Run(ks, lang)
  {
    assert (ks + [k])[..|ks|] == ks;
  }

  /** An assignment always clears the pending comment. */
  lemma AssignmentClearsComment(ks: seq<Line>, k: Line, lang: string)
    requires Run(ks, lang).Success? && k.Assignment?
    ensures Run(ks + [k], lang).Success?
    ensures !Run(ks + [k], lang).value.hasComment && Run(ks + [k], lang).value.comment == None
  {
    assert (ks + [k])[..|ks|] == ks;
  }

  /** A line that strips to blank is blank, and one that ends in `;` without any `=` is a failure. */
  lemma ClassifyEdgeCases(raw: string)
    ensures (forall i :: 0 <= i < |raw| ==> raw[i] in Whitespace) <==> Classify(raw).Blank?
    ensures var line := Strip(raw);
            line != [] && !StartsWith(line, "/*") && !StartsWith(line, "//") && EndsWith(line, ";") && '=' !in raw
            ==> Classify(raw) == Unsplit(line)
  {
    ClassifyBlank(raw);
    if '=' !in raw {
      StripKeepsOut(raw, '=');
      ClassifyNoEquals(raw);
    }
  }

  /** A line is blank exactly when it is all whitespace. */
  lemma ClassifyBlank(raw: string)
    ensures (forall i :: 0 <= i < |raw| ==> raw[i] in Whitespace) <==> Classify(raw).Blank?
  {
    var line := Strip(raw);
    assert Classify(raw) == ClassifyStripped(line);
    StrippedBlank(line);
  }

  /** Stripping adds no character: one absent from the line is absent after the strip. */
  lemma StripKeepsOut(raw: string, c: char)
    requires c !in raw
    ensures c !in Strip(raw)
  {
    var line := Strip(raw);
    var i, j :| 0 <= i <= j <= |raw| && line == raw[i..j];
    AbsentFromSlice(raw, line, i, j, c);
  }

  /** A stripped `;` line that is no comment and holds no `=` classifies as a failure line. */
  lemma ClassifyNoEquals(raw: string)
    requires '=' !in Strip(raw)
    ensures var line := Strip(raw);
            line != [] && !StartsWith(line, "/*") && !StartsWith(line, "//") && EndsWith(line, ";")
            ==> Classify(raw) == Unsplit(line)
  {
    var line := Strip(raw);
    assert Classify(raw) == ClassifyStripped(line);
    if line != [] && !StartsWith(line, "/*") && !StartsWith(line, "//") && EndsWith(line, ";") {
      StrippedUnsplit(line);
    }
  }

  /** Only the empty stripped line is blank. */
  lemma StrippedBlank(line: string)
    ensures ClassifyStripped(line).Blank? <==> line == []
  {
  }

  /** A stripped `;` line that is no comment and holds no `=` is a failure line. */
  lemma StrippedUnsplit(line: string)
    requires line != [] && !StartsWith(line, "/*") && !StartsWith(line, "//") && EndsWith(line, ";") && '=' !in line
    ensures ClassifyStripped(line) == Unsplit(line)
  {
  }

  /** A stripped line that starts with a comment marker is a comment line. */
  lemma StrippedComment(line: string)
    requires line != [] && (StartsWith(line, "/*") || StartsWith(line, "//"))
    ensures ClassifyStripped(line) == CommentLine(line)
  {
  }

  /** A stripped `;` line that is no comment and holds an `=` is an assignment of its two sides. */
  lemma StrippedAssignment(line: string)
    requires line != [] && !StartsWith(line, "/*") && !StartsWith(line, "//") && EndsWith(line, ";")
    requires |SplitOnce(line, '=')| == 2
    ensures ClassifyStripped(line) == Assignment(ObjectId(SplitOnce(line, '=')[0]), Value(SplitOnce(line, '=')[1]))
  {
  }

  /** A stripped line that is neither blank, nor a comment, nor ends in `;` is ignored. */
  lemma StrippedIgnored(line: string)
    requires line != [] && !StartsWith(line, "/*") && !StartsWith(line, "//") && !EndsWith(line, ";")
    ensures ClassifyStripped(line) == Ignored
  {
  }

  /** A character that does not occur in `s` does not occur in a slice of it. */
  lemma AbsentFromSlice(s: string, r: string, i: nat, j: nat, c: char)
    requires i <= j <= |s| && r == s[i..j] && c !in s
    ensures c !in r
  {
    assert forall k :: 0 <= k < |r| ==> r[k] == s[i + k];
  }

  /**
   * For an id that does not end in one of `. t e x " space`, the `.text` key
   * and the plain key give the same object id.
   */
  lemma TextFormsAgree(id: string)
    requires id != [] && id[0] != '"' && id[|id| - 1] !in TextIdChars
    ensures ObjectId("\"" + id + TextSuffix) == id
    ensures ObjectId("\"" + id + "\" ") == id
  {
    TextForm(id);
    PlainForm(id);
  }

  lemma TextForm(id: string)
    requires id != [] && id[0] != '"' && id[|id| - 1] !in TextIdChars
    ensures ObjectId("\"" + id + TextSuffix) == id
  {
    var key := "\"" + id + TextSuffix;
    assert key[|key| - |TextSuffix|..] == TextSuffix;
    StripSurround(id, TextSuffix, TextIdChars);
  }

  lemma PlainForm(id: string)
    requires id != [] && id[0] != '"' && id[|id| - 1] !in IdChars && id[|id| - 1] != 't'
    ensures ObjectId("\"" + id + "\" ") == id
  {
    var key := "\"" + id + "\" ";
    assert key[|key| - 3] == id[|id| - 1];
    assert !EndsWith(key, TextSuffix);
    StripSurround(id, "\" ", IdChars);
  }

  /** Stripping one leading quote and a tail drawn from `cs` gives back `id`. */
  lemma StripSurround(id: string, tail: string, cs: set<char>)
    requires id != [] && id[0] != '"' && id[|id| - 1] !in cs
    requires forall i :: 0 <= i < |tail| ==> tail[i] in cs
    ensures RStrip(LStrip("\"" + id + tail, QuoteChars), cs) == id
  {
    var s := "\"" + id + tail;
    assert s[1..] == id + tail;
    assert LStrip(s, QuoteChars) == id + tail;
    StripTailFrom(id + tail, |id|, cs);
    assert (id + tail)[..|id|] == id;
  }

  /** `RStrip` stops at a kept character once every later one is in `cs`. */
  lemma StripTailFrom(s: string, n: nat, cs: set<char>)
    requires 0 < n <= |s| && s[n - 1] !in cs
    requires forall i :: n <= i < |s| ==> s[i] in cs
    ensures RStrip(s, cs) == s[..n]
  {
  }

  /**
   * The set strip is not a suffix strip: the `x` that ends the object id of
   * the key `"LiR-e1-W2x.text" ` is stripped with the suffix.
   */
  lemma TextSuffixEatsIdChars()
    ensures ObjectId("\"LiR-e1-W2x.text\" ") == "LiR-e1-W2"
  {
    var id := "LiR-e1-W2";
    var tail := "x" + TextSuffix;
    var key := "\"" + id + tail;
    assert key == "\"LiR-e1-W2x.text\" ";
    assert key[|key| - |TextSuffix|..] == TextSuffix;
    forall i | 0 <= i < |tail| ensures tail[i] in TextIdChars {
    }
    StripSurround(id, tail, TextIdChars);
  }
}
