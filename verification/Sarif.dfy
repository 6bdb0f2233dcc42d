/** SARIF reports read as hostile input: bounded findings across all runs, messages cut at a
    character boundary. */
module Sarif {
  import opened Json
  import opened Options
  import opened Crypto
  import opened Utf8
  import IJson

  // ---- Cutting text ----

  /** `is_char_boundary`. */
  predicate Boundary(s: string, i: nat) {
    i == 0 || i == |s| || (i < |s| && !Continuation(s[i]))
  }

  function NearestBoundary(s: string, i: nat): nat
    requires i <= |s|
  {
    if i == 0 || Boundary(s, i) then i else NearestBoundary(s, i - 1)
  }

  method NearestCharBoundary(s: string, max: nat) returns (i: nat)
    ensures i == NearestBoundary(s, Min(max, |s|))
  {
    i := Min(max, |s|);
    while i > 0 && !Boundary(s, i)
      invariant i <= |s| && NearestBoundary(s, i) == NearestBoundary(s, Min(max, |s|))
    {
      i := i - 1;
    }
  }

  lemma {:induction false} NearestIsLargest(s: string, i: nat)
    requires i <= |s|
    ensures NearestBoundary(s, i) <= i && Boundary(s, NearestBoundary(s, i))
    ensures forall j :: NearestBoundary(s, i) < j <= i ==> !Boundary(s, j)
  {
    if i > 0 && !Boundary(s, i) {
      NearestIsLargest(s, i - 1);
    }
  }

  /** Cutting valid text at a boundary leaves valid text. */
  lemma {:induction false} BoundaryPrefixIsValid(s: string, i: nat)
    requires ValidUtf8(s) && i <= |s| && Boundary(s, i)
    ensures ValidUtf8(s[..i])
    decreases |s|
  {
    if i > 0 {
      var n := LeadLength(s[0]);
      assert i >= n;
      assert i < |s| ==> s[n..][i - n] == s[i];
      BoundaryPrefixIsValid(s[n..], i - n);
      assert s[..i][n..] == s[n..][..i - n];
    }
  }

  /** Boundaries are exactly the places where valid text can be cut. */
  lemma {:induction false} BoundaryExactly(s: string, i: nat)
    requires ValidUtf8(s) && i <= |s|
    ensures Boundary(s, i) <==> ValidUtf8(s[..i])
    decreases |s|
  {
    if Boundary(s, i) {
      BoundaryPrefixIsValid(s, i);
    } else {
      var n := LeadLength(s[0]);
      if ValidUtf8(s[..i]) {
        assert s[..i][n..] == s[n..][..i - n];
        BoundaryExactly(s[n..], i - n);
      }
    }
  }

  /** In valid text a boundary is never more than three bytes away. */
  lemma {:induction false} BoundaryIsNear(s: string, i: nat) returns (j: nat)
    requires ValidUtf8(s) && i <= |s|
    ensures j <= i <= j + 3 && Boundary(s, j)
    decreases |s|
  {
    if i == 0 {
      j := 0;
    } else {
      var n := LeadLength(s[0]);
      if i < n {
        j := 0;
      } else {
        var k := BoundaryIsNear(s[n..], i - n);
        j := k + n;
        assert k < |s[n..]| ==> s[n..][k] == s[j];
        assert Boundary(s, j) by {
          if k == 0 && n < |s| { assert LeadLength(s[n]) > 0; }
        }
      }
    }
  }

  function Truncate(message: string, max: nat): string {
    if |message| > max then message[..Cut(message, max)] else message
  }

  function Cut(message: string, max: nat): (i: nat)
    requires |message| > max
    ensures i <= |message|
  {
    NearestIsLargest(message, max);
    NearestBoundary(message, max)
  }

  /** A message becomes a valid prefix within the limit, at most three bytes short of it. */
  lemma TruncationIsClean(message: string, max: nat)
    requires ValidUtf8(message)
    ensures Truncate(message, max) <= message && ValidUtf8(Truncate(message, max)) && |Truncate(message, max)| <= max
    ensures if |message| <= max then Truncate(message, max) == message else |Truncate(message, max)| + 3 >= max
  {
    if |message| > max {
      NearestIsLargest(message, max);
      BoundaryPrefixIsValid(message, Cut(message, max));
      var j := BoundaryIsNear(message, max);
    }
  }

  // ---- Findings ----

  datatype Level = ErrorLevel | WarningLevel | NoteLevel | NoLevel

  datatype Finding = Finding(ruleId: string, level: Level, message: string)

  datatype Limits = Limits(maxBytes: nat, maxDepth: nat, maxFindings: nat, maxMessageLen: nat)

  function ParseLevel(v: Json): Level {
    if !v.Str? then WarningLevel
    else if v.s == "error" then ErrorLevel
    else if v.s == "warning" then WarningLevel
    else if v.s == "note" then NoteLevel
    else NoLevel
  }

  /** The value at the end of a path of member names; null where the path breaks off. */
  function At(v: Json, path: seq<string>): Json
    decreases |path|
  {
    if path == [] then v
    else if v.Obj? && path[0] in v.members then At(v.members[path[0]], path[1..])
    else Null
  }

  lemma AtOne(v: Json, name: string)
    ensures At(v, [name]) == Get(v, name)
  {
    if v.Obj? && name in v.members {
      assert [name][1..] == [] && At(v.members[name], []) == v.members[name];
    }
  }

  lemma {:induction false} AtStep(v: Json, path: seq<string>)
    requires path != []
    ensures At(v, path) == At(Get(v, path[0]), path[1..])
  {
    NullHasNoMembers(path[1..]);
  }

  lemma {:induction false} NullHasNoMembers(path: seq<string>)
    ensures At(Null, path) == Null
  {
  }

  function TextOf(v: Json): string { if v.Str? then v.s else "" }

  function FindingOf(r: Json, maxLen: nat): Finding {
    Finding(TextOf(Get(r, "ruleId")), ParseLevel(Get(r, "level")), Truncate(MessageOf(r), maxLen))
  }

  function ResultsOf(run: Json): seq<Json> {
    var results := Get(run, "results");
    if results.Arr? then results.items else []
  }

  /** The string at a path, or the empty one. */
  function StringAt(v: Json, path: seq<string>): string { if At(v, path).Str? then At(v, path).s else "" }

  /** Where a finding's parts are read from. */
  lemma FindingIsReadFrom(r: Json, maxLen: nat)
    ensures FindingOf(r, maxLen).ruleId == StringAt(r, ["ruleId"])
    ensures FindingOf(r, maxLen).level == ParseLevel(At(r, ["level"]))
    ensures MessageOf(r) == StringAt(r, ["message", "text"])
    ensures |MessageOf(r)| <= maxLen ==> FindingOf(r, maxLen).message == MessageOf(r)
  {
    AtOne(r, "ruleId");
    AtOne(r, "level");
    AtStep(r, ["message", "text"]);
    assert ["message", "text"][1..] == ["text"];
    AtOne(Get(r, "message"), "text");
  }

  lemma ResultsAreReadFrom(run: Json)
    ensures ResultsOf(run) == if At(run, ["results"]).Arr? then At(run, ["results"]).items else []
  {
    AtOne(run, "results");
  }

  lemma ToolIsReadFrom(run: Json)
    ensures ToolName(run) == At(run, ["tool", "driver", "name"])
  {
    var path := ["tool", "driver", "name"];
    AtStep(run, path);
    assert path[1..] == ["driver", "name"] && path[1..][1..] == ["name"];
    AtStep(Get(run, "tool"), path[1..]);
    AtOne(Get(Get(run, "tool"), "driver"), "name");
  }

  /** The results of all runs, in order. */
  function AllResults(runs: seq<Json>): seq<Json> {
    if runs == [] then [] else AllResults(runs[..|runs| - 1]) + ResultsOf(runs[|runs| - 1])
  }

  function FindingsOf(results: seq<Json>, maxLen: nat): seq<Finding> {
    seq(|results|, i requires 0 <= i < |results| => FindingOf(results[i], maxLen))
  }

  /** The loop over every run's results, under one cap. */
  method ExtractFindings(runs: seq<Json>, limits: Limits) returns (findings: seq<Finding>, truncated: nat)
    ensures findings == FindingsOf(AllResults(runs)[..Min(limits.maxFindings, |AllResults(runs)|)],
      limits.maxMessageLen)
    ensures |findings| + truncated == |AllResults(runs)|
  {
    findings, truncated := [], 0;
    for i := 0 to |runs|
      invariant Reported(findings, truncated, AllResults(runs[..i]), limits)
    {
      assert runs[..i + 1][..i] == runs[..i];
      findings, truncated := AddResults(findings, truncated, AllResults(runs[..i]), ResultsOf(runs[i]), limits);
    }
    assert runs[..|runs|] == runs;
  }

  predicate Reported(findings: seq<Finding>, truncated: nat, results: seq<Json>, limits: Limits) {
    && findings == FindingsOf(results[..Min(limits.maxFindings, |results|)], limits.maxMessageLen)
    && |findings| + truncated == |results|
  }

  method AddResults(before: seq<Finding>, beforeTruncated: nat, ghost done: seq<Json>, results: seq<Json>,
                    limits: Limits)
    returns (findings: seq<Finding>, truncated: nat)
    requires Reported(before, beforeTruncated, done, limits)
    ensures Reported(findings, truncated, done + results, limits)
  {
    findings, truncated := before, beforeTruncated;
    assert done + results[..0] == done;
    for i := 0 to |results|
      invariant Reported(findings, truncated, done + results[..i], limits)
    {
      assert done + results[..i + 1] == (done + results[..i]) + [results[i]];
      if |findings| >= limits.maxFindings {
        truncated := truncated + 1;
      } else {
        findings := findings + [FindingOf(results[i], limits.maxMessageLen)];
      }
    }
    assert results[..|results|] == results;
  }

  // ---- The whole report ----

  datatype Report = Report(digest: string, byteLength: nat, toolName: string, findings: seq<Finding>, truncated: nat)

  datatype SarifError = TooLarge(actual: nat, limit: nat) | NotIJson(cause: IJson.Error) | NotSarif(why: string)

  datatype Result = Ok(report: Report) | Err(error: SarifError)

  function ToolName(run: Json): Json { Get(Get(Get(run, "tool"), "driver"), "name") }

  /** Structurally a SARIF 2.1.0 log. */
  predicate Shaped(v: Json) {
    && v.Obj? && Get(v, "version") == Str("2.1.0") && Get(v, "runs").Arr?
    && |Get(v, "runs").items| > 0 && ToolName(Get(v, "runs").items[0]).Str?
  }

  /** What a report of `v` says. */
  predicate Reports(r: Report, v: Json, limits: Limits)
    requires Shaped(v)
  {
    && r.toolName == ToolName(Get(v, "runs").items[0]).s
    && Reported(r.findings, r.truncated, AllResults(Get(v, "runs").items), limits)
  }

  method ReadReport(lib: Lib, bytes: string, v: Json, limits: Limits) returns (r: Result)
    ensures r.Ok? <==> Shaped(v)
    ensures r.Ok? ==> r.report.digest == lib.sha(bytes) && r.report.byteLength == |bytes|
    ensures r.Ok? ==> Reports(r.report, v, limits)
    ensures r.Err? ==> r.error == NotSarif(
      if !v.Obj? then "top level is not an object"
      else if At(v, ["version"]) != Str("2.1.0") then "version is not 2.1.0"
      else if !At(v, ["runs"]).Arr? then "runs is not an array"
      else if At(v, ["runs"]).items == [] then "no runs"
      else "missing tool.driver.name")
  {
    AtOne(v, "version");
    AtOne(v, "runs");
    if !v.Obj? {
      return Err(NotSarif("top level is not an object"));
    }
    if Get(v, "version") != Str("2.1.0") {
      return Err(NotSarif("version is not 2.1.0"));
    }
    var runs := Get(v, "runs");
    if !runs.Arr? {
      return Err(NotSarif("runs is not an array"));
    }
    if |runs.items| == 0 {
      return Err(NotSarif("no runs"));
    }
    var name := ToolName(runs.items[0]);
    if !name.Str? {
      return Err(NotSarif("missing tool.driver.name"));
    }
    var findings, truncated := ExtractFindings(runs.items, limits);
    r := Ok(Report(lib.sha(bytes), |bytes|, name.s, findings, truncated));
  }

  /** Every string in the value is UTF-8, as Rust's `str` guarantees. */
  ghost predicate Utf8Value(v: Json)
    decreases v
  {
    match v
    case Str(s) => ValidUtf8(s)
    case Arr(items) => forall x :: x in items ==> Utf8Value(x)
    case Obj(members) => forall k :: k in members ==> Utf8Value(members[k])
    case _ => true
  }

  function MessageOf(r: Json): string { TextOf(Get(Get(r, "message"), "text")) }

  /** `cut` is a UTF-8 prefix of `text` within the limit, at most three bytes short of it. */
  predicate CleanCut(cut: string, text: string, max: nat) {
    && cut <= text && ValidUtf8(cut) && |cut| <= max
    && if |text| <= max then cut == text else |cut| + 3 >= max
  }

  lemma MemberIsUtf8(v: Json, name: string)
    requires Utf8Value(v)
    ensures Utf8Value(Get(v, name))
  {
  }

  lemma ResultIsUtf8(run: Json, r: Json)
    requires Utf8Value(run) && r in ResultsOf(run)
    ensures ValidUtf8(MessageOf(r))
  {
    MemberIsUtf8(run, "results");
    MemberIsUtf8(r, "message");
    MemberIsUtf8(Get(r, "message"), "text");
  }

  lemma {:induction false} ResultsAreUtf8(runs: seq<Json>)
    requires forall x :: x in runs ==> Utf8Value(x)
    ensures forall r :: r in AllResults(runs) ==> ValidUtf8(MessageOf(r))
  {
    if runs != [] {
      var last := |runs| - 1;
      ResultsAreUtf8(runs[..last]);
      assert AllResults(runs) == AllResults(runs[..last]) + ResultsOf(runs[last]);
      forall r | r in ResultsOf(runs[last]) ensures ValidUtf8(MessageOf(r)) {
        ResultIsUtf8(runs[last], r);
      }
    }
  }

  /** Every message reported is a clean cut of the message of its own result. */
  lemma MessagesAreClean(r: Report, v: Json, limits: Limits)
    requires Shaped(v) && Utf8Value(v) && Reports(r, v, limits)
    ensures var results := AllResults(Get(v, "runs").items);
      && |r.findings| <= |results|
      && forall i :: 0 <= i < |r.findings| ==>
        CleanCut(r.findings[i].message, MessageOf(results[i]), limits.maxMessageLen)
  {
    var runs := Get(v, "runs").items;
    ResultsAreUtf8(runs);
    var results := AllResults(runs);
    forall i | 0 <= i < |r.findings|
      ensures CleanCut(r.findings[i].message, MessageOf(results[i]), limits.maxMessageLen)
    {
      assert results[i] in results;
      TruncationIsClean(MessageOf(results[i]), limits.maxMessageLen);
    }
  }

  /** A level is `none` exactly when it is a string other than the three names; a level that is not a
      string counts as absent, and an absent level is a warning. */
  lemma LevelIsNoneExactly(v: Json)
    ensures ParseLevel(v) == NoLevel <==> v.Str? && v.s != "error" && v.s != "warning" && v.s != "note"
    ensures ParseLevel(v) == WarningLevel <==> !v.Str? || v.s == "warning"
  {
  }

  /** So in every report: the level of a finding is `none` exactly when its own result names an
      unknown one. */
  lemma ReportedLevels(r: Report, v: Json, limits: Limits, i: nat)
    requires Shaped(v) && Reports(r, v, limits) && i < |r.findings|
    ensures i < |AllResults(Get(v, "runs").items)|
    ensures var level := Get(AllResults(Get(v, "runs").items)[i], "level");
      && (r.findings[i].level == NoLevel <==>
            level.Str? && level.s != "error" && level.s != "warning" && level.s != "note")
      && (r.findings[i].level == WarningLevel <==> !level.Str? || level.s == "warning")
  {
    LevelIsNoneExactly(Get(AllResults(Get(v, "runs").items)[i], "level"));
  }

  /** An unknown level that is a number is reported as a warning. */
  lemma NumberLevelIsAWarning()
    ensures ParseLevel(Num("3")) == WarningLevel
  {
  }

  /** Reads a report from its bytes: the digest covers the bytes as given, and acceptance is exactly
      I-JSON within the limits plus the SARIF shape. */
  method ParseSarif(lib: Lib, num: IJson.Numbers, syntax: string -> IJson.Text, bytes: string, limits: Limits)
      returns (r: Result)
    requires IJson.RoundsFar(num)
    ensures r == Err(TooLarge(|bytes|, limits.maxBytes)) <==> |bytes| > limits.maxBytes
    ensures r.Ok? <==>
      IJson.Accepts(syntax, bytes, limits.maxBytes, limits.maxDepth) && Shaped(IJson.ToValue(num, syntax(bytes).doc))
    ensures r.Ok? ==> r.report.digest == lib.sha(bytes) && r.report.byteLength == |bytes|
    ensures r.Ok? ==> Reports(r.report, IJson.ToValue(num, syntax(bytes).doc), limits)
    ensures r.Ok? && Utf8Value(IJson.ToValue(num, syntax(bytes).doc)) ==>
      var results := AllResults(Get(IJson.ToValue(num, syntax(bytes).doc), "runs").items);
      |r.report.findings| <= |results| && forall i :: 0 <= i < |r.report.findings| ==>
        CleanCut(r.report.findings[i].message, MessageOf(results[i]), limits.maxMessageLen)
  {
    if |bytes| > limits.maxBytes {
      return Err(TooLarge(|bytes|, limits.maxBytes));
    }
    var value := IJson.ParseWithLimits(num, syntax, bytes, limits.maxBytes, limits.maxDepth);
    if value.Err? {
      return Err(NotIJson(value.error));
    }
    r := ReadReport(lib, bytes, value.value, limits);
    if r.Ok? && Utf8Value(value.value) {
      MessagesAreClean(r.report, value.value, limits);
    }
  }
}
