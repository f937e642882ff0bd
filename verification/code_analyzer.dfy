/**
 * `CodeAnalyzer` (api/services/code_analyzer.py): turns the reasoning
 * service's reply about two code versions into a `CodeComparisonResponse`.
 * Building the prompt and calling the service are outside the model: the
 * reply arrives as an input.
 */
module CodeAnalyzer {
  import opened Wrappers
  import opened JsonValues
  import opened Schemas
  import opened LlmReply
  import Text

  /** `CodeComparisonRequest`. */
  datatype CodeComparisonRequest = CodeComparisonRequest(
    oldCode: string,
    newCode: string,
    analysisDepth: string,
    firmwareType: Option<string>)

  /** The `analysis_metadata` dictionary: the counters of a success, or `{'error': True}`. */
  datatype CodeMetadata =
    | CodeMetadata(
        oldCodeLines: nat,
        newCodeLines: nat,
        totalDifferences: nat,
        securityFindingsCount: nat,
        analysisMethod: string,
        analysisDepth: string,
        firmwareType: Option<string>)
    | ErrorMetadata

  /** `CodeComparisonResponse`. */
  datatype CodeComparisonResponse = CodeComparisonResponse(
    success: bool,
    differences: seq<CodeDifference>,
    securityFindings: seq<SecurityFinding>,
    riskAssessment: RiskLevel,
    changeSummary: map<string, Json>,
    recommendations: seq<string>,
    analysisMetadata: CodeMetadata)

  /** What `_parse_response` returns when the reply does not decode. */
  const Fallback: Json := JObj(map[
    "differences" := JArr([]),
    "security_findings" := JArr([]),
    "risk_assessment" := JStr("low"),
    "change_summary" := JObj(map["total_changes" := JNum(0.0)]),
    "recommendations" := JArr([JStr("Could not parse LLM response")])])

  /**
   * `_parse_risk`: the level whose value is the lower-cased text, and LOW
   * for any text that names no level.
   */
  function ParseRisk(riskText: string): (r: RiskLevel)
    ensures RiskLevelByValue(Text.Lower(riskText)).Some? ==> r == RiskLevelByValue(Text.Lower(riskText)).value
    ensures RiskLevelByValue(Text.Lower(riskText)).None? ==> r == Low
  {
    var key := Text.Lower(riskText);
    if key == "critical" then Critical
    else if key == "high" then High
    else if key == "medium" then Medium
    else if key == "low" then Low
    else Low
  }

  /** Parsing the value of a level gives that level back. */
  lemma ParseRiskOfValue(l: RiskLevel)
    ensures ParseRisk(l.Value()) == l
  {
    assert Text.Lower(l.Value()) == l.Value();
  }

  /** Parsing ignores the case of ASCII letters. */
  lemma ParseRiskIgnoresCase(s: string)
    ensures ParseRisk(Text.Upper(s)) == ParseRisk(s)
  {
    Text.LowerOfUpper(s);
  }

  /** The cases the source's own tests check. */
  lemma ParseRiskExamples()
    ensures ParseRisk("critical") == Critical
    ensures ParseRisk("HIGH") == High
    ensures ParseRisk("Medium") == Medium
    ensures ParseRisk("low") == Low
    ensures ParseRisk("unknown") == Low
  {
    assert Text.Lower("HIGH") == "high";
    assert Text.Lower("Medium") == "medium";
    assert Text.Lower("unknown") == "unknown";
  }

  /** One entry of `_make_differences`: the `CodeDifference` it constructs, or `None` when construction raises. */
  function MakeDifference(entry: Json): (r: Option<CodeDifference>)
    ensures !entry.JObj? ==> r.None?
    ensures r.Some? && "line_number" !in entry.fields ==> r.value.lineNumber == 1
    ensures r.Some? && "change_type" !in entry.fields ==> r.value.changeType == "modified"
    ensures r.Some? && "description" !in entry.fields ==> r.value.context == ""
    ensures r.Some? && "description" in entry.fields ==> entry.fields["description"] == JStr(r.value.context)
    ensures r.Some? && "change_type" in entry.fields ==> entry.fields["change_type"] == JStr(r.value.changeType)
    ensures entry.JObj? && "description" in entry.fields && !entry.fields["description"].JStr? ==> r.None?
  {
    match entry
    case JObj(d) =>
      ValidateCodeDifference(map[
        "line_number" := Get(d, "line_number", JNum(1.0)),
        "change_type" := Get(d, "change_type", JStr("modified")),
        "old_content" := Get(d, "old_content", JNull),
        "new_content" := Get(d, "new_content", JNull),
        "context" := Get(d, "description", JStr(""))])
    case _ => None
  }

  /** An empty object becomes a difference made of defaults only. */
  lemma MakeDifferenceDefaults()
    ensures MakeDifference(JObj(map[])) == Some(CodeDifference(1, "modified", None, None, ""))
  {
    assert (1.0).Floor == 1;
  }

  /** One entry of `_make_findings`: the severity goes through `ParseRisk`, defaulting to "low". */
  function MakeFinding(entry: Json): (r: Option<SecurityFinding>)
    ensures !entry.JObj? ==> r.None?
    ensures r.Some? && "severity" !in entry.fields ==> r.value.severity == Low
    ensures r.Some? && "severity" in entry.fields ==>
      entry.fields["severity"].JStr? && r.value.severity == ParseRisk(entry.fields["severity"].s)
    ensures entry.JObj? && "severity" in entry.fields && !entry.fields["severity"].JStr? ==> r.None?
    ensures r.Some? && "type" !in entry.fields ==> r.value.kind == "unknown"
    ensures r.Some? && "location" !in entry.fields ==> r.value.location == "unknown"
  {
    match entry
    case JObj(d) =>
      var severityText := Get(d, "severity", JStr("low"));
      if !severityText.JStr? then None   // `.lower()` raises inside the entry's `try`
      else
        var severity := ParseRisk(severityText.s);
        ParseRiskOfValue(severity);
        ValidateSecurityFinding(map[
          "type" := Get(d, "type", JStr("unknown")),
          "severity" := JStr(severity.Value()),
          "location" := Get(d, "location", JStr("unknown")),
          "description" := Get(d, "description", JStr("")),
          "code_snippet" := Get(d, "code_snippet", JStr("")),
          "recommendation" := Get(d, "recommendation", JStr(""))])
    case _ => None
  }

  /** Strings met while iterating a string or a dictionary are never converted. */
  lemma StringEntriesAreSkipped(s: string)
    ensures MakeDifference(JStr(s)).None? && MakeFinding(JStr(s)).None?
  {
  }

  /** `_parse_risk(analysis.get("risk_assessment", "low"))`: raises when the value is not a string. */
  function RiskOf(v: Json): Result<RiskLevel, AnalysisError> {
    match v
    case JStr(s) => Success(ParseRisk(s))
    case _ => Failure(Raised(NotAString("risk_assessment")))
  }

  /** The body of the `try` in `compare_codes`. */
  function Analyse(req: CodeComparisonRequest, reply: Reply, ext: Externals): Result<CodeComparisonResponse, AnalysisError> {
    var text :- ReplyText(reply);
    var analysis := ParseResponse(text, ext.decode, Fallback);
    var fields :- AsDict(analysis);
    Build(req, fields)
  }

  /** The part of the `try` that works on the decoded dictionary. */
  function Build(req: CodeComparisonRequest, fields: map<string, Json>): Result<CodeComparisonResponse, AnalysisError> {
    var differences :- ConvertEntries(Get(fields, "differences", JArr([])), "differences", MakeDifference);
    var findings :- ConvertEntries(Get(fields, "security_findings", JArr([])), "security_findings", MakeFinding);
    var risk :- RiskOf(Get(fields, "risk_assessment", JStr("low")));
    var summary :- DictField(Get(fields, "change_summary", JObj(map[])), "change_summary");
    var recommendations :- StringListField(Get(fields, "recommendations", JArr([])), "recommendations");
    var metadata := CodeMetadata(
      Text.LineCount(req.oldCode), Text.LineCount(req.newCode),
      |differences|, |findings|, "llm_based", req.analysisDepth, req.firmwareType);
    Success(CodeComparisonResponse(true, differences, findings, risk, summary, recommendations, metadata))
  }

  /** The response built by the `except` branch of `compare_codes`. */
  function FailureResponse(message: string): CodeComparisonResponse {
    CodeComparisonResponse(
      false, [], [], Low, map["error" := JStr(message)], ["Analysis failed: " + message], ErrorMetadata)
  }

  /**
   * `compare_codes`: a successful response whose counters equal its list
   * lengths, or the failure response carrying the error text.
   */
  function CompareCodes(req: CodeComparisonRequest, reply: Reply, ext: Externals): (r: CodeComparisonResponse)
    ensures r.success ==>
      && r.analysisMetadata.CodeMetadata?
      && r.analysisMetadata.totalDifferences == |r.differences|
      && r.analysisMetadata.securityFindingsCount == |r.securityFindings|
      && r.analysisMetadata.oldCodeLines == Text.LineCount(req.oldCode)
      && r.analysisMetadata.newCodeLines == Text.LineCount(req.newCode)
      && r.analysisMetadata.analysisDepth == req.analysisDepth
      && r.analysisMetadata.firmwareType == req.firmwareType
    ensures !r.success ==>
      && r.differences == [] && r.securityFindings == [] && r.riskAssessment == Low
      && r.analysisMetadata == ErrorMetadata
      && exists e: AnalysisError :: r == FailureResponse(ErrorText(e, ext))
    ensures reply.Failed? ==> r == FailureResponse("OpenAI failed: " + reply.message)
    ensures reply == Answered(None) ==> r == FailureResponse(ext.describe(NoReplyText))
  {
    match Analyse(req, reply, ext)
    case Success(response) => response
    case Failure(e) => FailureResponse(ErrorText(e, ext))
  }

  /**
   * A reply that does not decode yields the fixed fallback analysis: nothing
   * found, LOW risk, zero changes and one recommendation.
   */
  lemma UndecodableReply(req: CodeComparisonRequest, text: string, ext: Externals)
    requires ext.decode(DecoderInput(text)).None?
    ensures CompareCodes(req, Answered(Some(text)), ext) == CodeComparisonResponse(
      true, [], [], Low,
      map["total_changes" := JNum(0.0)],
      ["Could not parse LLM response"],
      CodeMetadata(Text.LineCount(req.oldCode), Text.LineCount(req.newCode), 0, 0, "llm_based", req.analysisDepth, req.firmwareType))
  {
    assert ParseResponse(text, ext.decode, Fallback) == Fallback;
    assert Analyse(req, Answered(Some(text)), ext) == Build(req, Fallback.fields);
    FallbackBuild(req);
  }

  /** The fallback dictionary builds the fallback response. */
  lemma FallbackBuild(req: CodeComparisonRequest)
    ensures Build(req, Fallback.fields) == Success(CodeComparisonResponse(
      true, [], [], Low,
      map["total_changes" := JNum(0.0)],
      ["Could not parse LLM response"],
      CodeMetadata(Text.LineCount(req.oldCode), Text.LineCount(req.newCode), 0, 0, "llm_based", req.analysisDepth, req.firmwareType)))
  {
    FallbackFields();
    assert RiskOf(JStr("low")) == Success(Low) by {
      ParseRiskOfValue(Low);
    }
    FallbackRecommendations("Could not parse LLM response");
  }

  /** The lookups `compare_codes` makes in the fallback dictionary. */
  lemma FallbackFields()
    ensures Get(Fallback.fields, "differences", JArr([])) == JArr([])
    ensures Get(Fallback.fields, "security_findings", JArr([])) == JArr([])
    ensures Get(Fallback.fields, "risk_assessment", JStr("low")) == JStr("low")
    ensures Get(Fallback.fields, "change_summary", JObj(map[])) == JObj(map["total_changes" := JNum(0.0)])
    ensures Get(Fallback.fields, "recommendations", JArr([])) == JArr([JStr("Could not parse LLM response")])
  {
  }

  /**
   * What a decoded dictionary must hold for `compare_codes` to succeed, each
   * key being optional: differences and findings it can iterate, a risk text,
   * a summary dictionary and a list of recommendation strings.
   */
  predicate Readable(fields: map<string, Json>) {
    && Iterable(Get(fields, "differences", JArr([])))
    && Iterable(Get(fields, "security_findings", JArr([])))
    && Get(fields, "risk_assessment", JStr("low")).JStr?
    && Get(fields, "change_summary", JObj(map[])).JObj?
    && IsStringList(Get(fields, "recommendations", JArr([])))
  }

  /**
   * The response carries what the dictionary says: its converted differences
   * and findings, the parsed risk text, its summary and its recommendations.
   */
  predicate ReadFrom(r: CodeComparisonResponse, fields: map<string, Json>) {
    var recommendations := Get(fields, "recommendations", JArr([]));
    && r.differences == Collected(Get(fields, "differences", JArr([])), MakeDifference)
    && r.securityFindings == Collected(Get(fields, "security_findings", JArr([])), MakeFinding)
    && Get(fields, "risk_assessment", JStr("low")).JStr?
    && r.riskAssessment == ParseRisk(Get(fields, "risk_assessment", JStr("low")).s)
    && Get(fields, "change_summary", JObj(map[])) == JObj(r.changeSummary)
    && recommendations.JArr? && |r.recommendations| == |recommendations.items|
    && forall i | 0 <= i < |r.recommendations| :: recommendations.items[i] == JStr(r.recommendations[i])
  }

  /** `CompareCodesReadsReply` for the decoded dictionary. */
  lemma BuildReadsFields(req: CodeComparisonRequest, fields: map<string, Json>)
    ensures Build(req, fields).Success? <==> Readable(fields)
    ensures Build(req, fields).Success? ==> ReadFrom(Build(req, fields).value, fields)
  {
    ConvertEntriesReads(Get(fields, "differences", JArr([])), "differences", MakeDifference);
    ConvertEntriesReads(Get(fields, "security_findings", JArr([])), "security_findings", MakeFinding);
  }

  /**
   * A reply that decodes to a dictionary gives a successful comparison
   * exactly when the dictionary is readable, and the comparison then carries
   * what the dictionary says.
   */
  lemma CompareCodesReadsReply(req: CodeComparisonRequest, text: string, ext: Externals, fields: map<string, Json>)
    requires ext.decode(DecoderInput(text)) == Some(JObj(fields))
    ensures CompareCodes(req, Answered(Some(text)), ext).success <==> Readable(fields)
    ensures CompareCodes(req, Answered(Some(text)), ext).success ==> ReadFrom(CompareCodes(req, Answered(Some(text)), ext), fields)
  {
    assert ParseResponse(text, ext.decode, Fallback) == JObj(fields);
    assert Analyse(req, Answered(Some(text)), ext) == Build(req, fields);
    BuildReadsFields(req, fields);
  }

  /** A reply that decodes to something other than a dictionary fails on `.get`. */
  lemma NonObjectReply(req: CodeComparisonRequest, text: string, ext: Externals, v: Json)
    requires ext.decode(DecoderInput(text)) == Some(v) && !v.JObj?
    ensures CompareCodes(req, Answered(Some(text)), ext) == FailureResponse(ext.describe(NotADict))
  {
    assert ParseResponse(text, ext.decode, Fallback) == v;
  }

  /** Without a "risk_assessment" key the overall risk is LOW. */
  lemma MissingRiskIsLow(req: CodeComparisonRequest, text: string, ext: Externals, fields: map<string, Json>)
    requires ext.decode(DecoderInput(text)) == Some(JObj(fields))
    requires "risk_assessment" !in fields
    requires CompareCodes(req, Answered(Some(text)), ext).success
    ensures CompareCodes(req, Answered(Some(text)), ext).riskAssessment == Low
  {
  }
}
