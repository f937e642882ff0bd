/**
 * `ComplianceAnalyzer` (api/services/compliance_analyzer.py): turns the
 * reasoning service's verdict on a code analysis and a specification
 * analysis into a `ComplianceValidationResponse`. The reply arrives as an
 * input; serialising the two analyses into the prompt is not modelled.
 *
 * The entry conversions exist twice. `MakeMismatch` and `MakeMatch` follow
 * the source: both pass the reference to the specification under the
 * keyword `doc_reference`, which names no field of the records, so it is
 * ignored. A mismatch therefore never carries its reference and a match,
 * whose `spec_reference` is required, can never be built. `MakeMismatchFixed`
 * and `MakeMatchFixed` pass it as `spec_reference`; the rest of the model
 * uses them.
 */
module ComplianceAnalyzer {
  import opened Wrappers
  import opened JsonValues
  import opened Schemas
  import opened LlmReply

  /** `ComplianceValidationRequest`: the two earlier analyses, as dictionaries. */
  datatype ComplianceValidationRequest = ComplianceValidationRequest(
    codeAnalysis: map<string, Json>,
    specAnalysis: map<string, Json>)

  /** The `analysis_metadata` dictionary: the counters of a success, or `{'error': True}`. */
  datatype ComplianceMetadata =
    | ComplianceMetadata(
        codeChangesCount: nat,
        specChangesCount: nat,
        mismatchesCount: nat,
        matchesCount: nat,
        analysisMethod: string)
    | ErrorMetadata

  /** `ComplianceValidationResponse`. */
  datatype ComplianceValidationResponse = ComplianceValidationResponse(
    success: bool,
    complianceStatus: string,
    mismatches: seq<ComplianceMismatch>,
    matches: seq<ComplianceMatch>,
    complianceScore: real,
    summary: map<string, Json>,
    recommendations: seq<string>,
    analysisMetadata: ComplianceMetadata)

  /** The two entry conversions an analysis uses. */
  datatype Converters = Converters(
    mismatch: Json -> Option<ComplianceMismatch>,
    matching: Json -> Option<ComplianceMatch>)

  /** What `_parse_response` returns when the reply does not decode. */
  const Fallback: Json := JObj(map[
    "compliance_status" := JStr("error"),
    "mismatches" := JArr([]),
    "matches" := JArr([]),
    "compliance_score" := JNum(0.0),
    "summary" := JObj(map["total_code_changes" := JNum(0.0), "total_doc_changes" := JNum(0.0)]),
    "recommendations" := JArr([JStr("Could not parse LLM response")])])

  /** One entry of `_make_mismatches`, as the source builds it. */
  function MakeMismatch(entry: Json): (r: Option<ComplianceMismatch>)
    ensures !entry.JObj? ==> r.None?
    ensures r.Some? ==> r.value.specReference.None?
    ensures r.Some? && "type" !in entry.fields ==> r.value.kind == "unknown"
    ensures r.Some? && "code_reference" !in entry.fields ==> r.value.codeReference == ""
    ensures r.Some? && "severity" !in entry.fields ==> r.value.severity == "medium"
    ensures r.Some? && "severity" in entry.fields ==> entry.fields["severity"] == JStr(r.value.severity)
  {
    match entry
    case JObj(d) =>
      ValidateComplianceMismatch(map[
        "type" := Get(d, "type", JStr("unknown")),
        "description" := Get(d, "description", JStr("")),
        "code_reference" := Get(d, "code_reference", JStr("")),
        "doc_reference" := Get(d, "doc_reference", JNull),
        "severity" := Get(d, "severity", JStr("medium"))])
    case _ => None
  }

  /** One entry of `_make_matches`, as the source builds it: construction always fails. */
  function MakeMatch(entry: Json): (r: Option<ComplianceMatch>)
    ensures r.None?
  {
    match entry
    case JObj(d) =>
      ValidateComplianceMatch(map[
        "description" := Get(d, "description", JStr("")),
        "code_reference" := Get(d, "code_reference", JStr("")),
        "doc_reference" := Get(d, "doc_reference", JStr(""))])
    case _ => None
  }

  /** A mismatch entry that names its specification change still loses the reference. */
  lemma MismatchLosesDocReference()
    ensures MakeMismatch(JObj(map["doc_reference" := JStr("section 2")]))
         == Some(ComplianceMismatch("unknown", "", "", None, "medium"))
  {
  }

  /** One entry of `_make_mismatches`, with the reference passed as `spec_reference`. */
  function MakeMismatchFixed(entry: Json): (r: Option<ComplianceMismatch>)
    ensures !entry.JObj? ==> r.None?
    ensures r.Some? && "doc_reference" !in entry.fields ==> r.value.specReference.None?
    ensures r.Some? && "doc_reference" in entry.fields ==>
      entry.fields["doc_reference"] == if r.value.specReference.Some? then JStr(r.value.specReference.value) else JNull
    ensures r.Some? && "type" !in entry.fields ==> r.value.kind == "unknown"
    ensures r.Some? && "severity" !in entry.fields ==> r.value.severity == "medium"
  {
    match entry
    case JObj(d) =>
      ValidateComplianceMismatch(map[
        "type" := Get(d, "type", JStr("unknown")),
        "description" := Get(d, "description", JStr("")),
        "code_reference" := Get(d, "code_reference", JStr("")),
        "spec_reference" := Get(d, "doc_reference", JNull),
        "severity" := Get(d, "severity", JStr("medium"))])
    case _ => None
  }

  /** One entry of `_make_matches`, with the reference passed as `spec_reference`. */
  function MakeMatchFixed(entry: Json): (r: Option<ComplianceMatch>)
    ensures !entry.JObj? ==> r.None?
    ensures r.Some? && "doc_reference" !in entry.fields ==> r.value.specReference == ""
    ensures r.Some? && "doc_reference" in entry.fields ==> entry.fields["doc_reference"] == JStr(r.value.specReference)
  {
    match entry
    case JObj(d) =>
      ValidateComplianceMatch(map[
        "description" := Get(d, "description", JStr("")),
        "code_reference" := Get(d, "code_reference", JStr("")),
        "spec_reference" := Get(d, "doc_reference", JStr(""))])
    case _ => None
  }

  /**
   * With the keyword fixed, an entry whose three references are strings
   * converts to exactly that match, and a mismatch keeps its reference.
   */
  lemma FixedEntriesKeepReferences(description: string, code: string, doc: string)
    ensures MakeMatchFixed(JObj(map["description" := JStr(description), "code_reference" := JStr(code), "doc_reference" := JStr(doc)]))
         == Some(ComplianceMatch(description, code, doc))
    ensures MakeMatchFixed(JObj(map[])) == Some(ComplianceMatch("", "", ""))
    ensures MakeMismatchFixed(JObj(map["doc_reference" := JStr(doc)]))
         == Some(ComplianceMismatch("unknown", "", "", Some(doc), "medium"))
  {
  }

  /** The conversions of the source. */
  const AsWritten: Converters := Converters(MakeMismatch, MakeMatch)

  /** The conversions with the keyword fixed. */
  const Fixed: Converters := Converters(MakeMismatchFixed, MakeMatchFixed)

  /**
   * `float(analysis.get("compliance_score", 0.0))`: a number is kept, a
   * boolean becomes 1.0 or 0.0, a string is parsed, anything else raises.
   */
  function ScoreOf(v: Json, parseFloat: string -> Option<real>): (r: Result<real, AnalysisError>)
    ensures v.JNum? ==> r == Success(v.n)
    ensures v.JBool? ==> r == Success(if v.b then 1.0 else 0.0)
    ensures v.JStr? ==> (r.Success? <==> parseFloat(v.s).Some?)
    ensures v.JStr? && r.Success? ==> r.value == parseFloat(v.s).value
    ensures v.JNull? || v.JArr? || v.JObj? ==> r == Failure(Raised(NotANumber("compliance_score")))
  {
    match v
    case JNum(n) => Success(n)
    case JBool(b) => Success(if b then 1.0 else 0.0)
    case JStr(s) =>
      (match parseFloat(s)
       case Some(x) => Success(x)
       case None => Failure(Raised(NotANumber("compliance_score"))))
    case _ => Failure(Raised(NotANumber("compliance_score")))
  }

  /** `len(analysis.get('differences', []))` on one of the request's analyses. */
  function ChangesCount(analysis: map<string, Json>): (r: Result<nat, AnalysisError>)
    ensures "differences" !in analysis ==> r == Success(0)
    ensures "differences" in analysis ==> (r.Success? <==> Len(analysis["differences"]).Some?)
    ensures "differences" in analysis && analysis["differences"].JArr? ==> r == Success(|analysis["differences"].items|)
  {
    match Len(Get(analysis, "differences", JArr([])))
    case Some(n) => Success(n)
    case None => Failure(Raised(NoLength("differences")))
  }

  /** The part of the `try` in `validate_compliance` that works on the decoded dictionary. */
  function Build(req: ComplianceValidationRequest, fields: map<string, Json>,
                 parseFloat: string -> Option<real>, conv: Converters)
    : Result<ComplianceValidationResponse, AnalysisError>
  {
    var mismatches :- ConvertEntries(Get(fields, "mismatches", JArr([])), "mismatches", conv.mismatch);
    var matches :- ConvertEntries(Get(fields, "matches", JArr([])), "matches", conv.matching);
    var status := Get(fields, "compliance_status", JStr("unknown"));
    var score :- ScoreOf(Get(fields, "compliance_score", JNum(0.0)), parseFloat);
    var codeChanges :- ChangesCount(req.codeAnalysis);
    var specChanges :- ChangesCount(req.specAnalysis);
    var metadata := ComplianceMetadata(codeChanges, specChanges, |mismatches|, |matches|, "llm_based");
    var statusText :- StringField(status, "compliance_status");
    var summary :- DictField(Get(fields, "summary", JObj(map[])), "summary");
    var recommendations :- StringListField(Get(fields, "recommendations", JArr([])), "recommendations");
    Success(ComplianceValidationResponse(true, statusText, mismatches, matches, score, summary, recommendations, metadata))
  }

  /** The body of the `try` in `validate_compliance`. */
  function Analyse(req: ComplianceValidationRequest, reply: Reply, ext: Externals, conv: Converters)
    : Result<ComplianceValidationResponse, AnalysisError>
  {
    var text :- ReplyText(reply);
    var analysis := ParseResponse(text, ext.decode, Fallback);
    var fields :- AsDict(analysis);
    Build(req, fields, ext.parseFloat, conv)
  }

  /** The response built by the `except` branch of `validate_compliance`. */
  function FailureResponse(message: string): ComplianceValidationResponse {
    ComplianceValidationResponse(
      false, "error", [], [], 0.0, map["error" := JStr(message)], ["Validation failed: " + message], ErrorMetadata)
  }

  /**
   * `validate_compliance` with the given entry conversions: a successful
   * response whose counters are the list lengths and the lengths of the
   * request's two difference lists, or the failure response carrying the
   * error text.
   */
  function Validate(req: ComplianceValidationRequest, reply: Reply, ext: Externals, conv: Converters)
    : (r: ComplianceValidationResponse)
    ensures r.success ==>
      && r.analysisMetadata.ComplianceMetadata?
      && r.analysisMetadata.mismatchesCount == |r.mismatches|
      && r.analysisMetadata.matchesCount == |r.matches|
      && ChangesCount(req.codeAnalysis) == Success(r.analysisMetadata.codeChangesCount)
      && ChangesCount(req.specAnalysis) == Success(r.analysisMetadata.specChangesCount)
    ensures !r.success ==>
      && r.complianceStatus == "error" && r.complianceScore == 0.0
      && r.mismatches == [] && r.matches == []
      && r.analysisMetadata == ErrorMetadata
      && exists e: AnalysisError :: r == FailureResponse(ErrorText(e, ext))
    ensures reply.Failed? ==> r == FailureResponse("OpenAI failed: " + reply.message)
    ensures ChangesCount(req.codeAnalysis).Failure? ==> !r.success
  {
    match Analyse(req, reply, ext, conv)
    case Success(response) => response
    case Failure(e) => FailureResponse(ErrorText(e, ext))
  }

  /** `validate_compliance` as the source has it. */
  function ValidateCompliance(req: ComplianceValidationRequest, reply: Reply, ext: Externals)
    : (r: ComplianceValidationResponse)
    ensures r.matches == []
    ensures forall i | 0 <= i < |r.mismatches| :: r.mismatches[i].specReference.None?
  {
    var r := Validate(req, reply, ext, AsWritten);
    MatchesNeverConvert(req, reply, ext);
    r
  }

  /** As written, no match survives conversion and no mismatch keeps a reference. */
  lemma MatchesNeverConvert(req: ComplianceValidationRequest, reply: Reply, ext: Externals)
    ensures Validate(req, reply, ext, AsWritten).matches == []
    ensures forall i | 0 <= i < |Validate(req, reply, ext, AsWritten).mismatches| ::
      Validate(req, reply, ext, AsWritten).mismatches[i].specReference.None?
  {
    var r := Validate(req, reply, ext, AsWritten);
    if r.success {
      var text := ReplyText(reply).value;
      var fields := AsDict(ParseResponse(text, ext.decode, Fallback)).value;
      assert Analyse(req, reply, ext, AsWritten) == Build(req, fields, ext.parseFloat, AsWritten);
      var ms := Get(fields, "matches", JArr([]));
      if ms.JArr? {
        ConvertAllDropsBad(ms.items, MakeMatch);
      }
      var mm := Get(fields, "mismatches", JArr([]));
      if mm.JArr? {
        forall i | 0 <= i < |r.mismatches|
          ensures r.mismatches[i].specReference.None?
        {
          var j :| 0 <= j < |mm.items| && MakeMismatch(mm.items[j]) == Some(r.mismatches[i]);
        }
      }
    }
  }

  /** `validate_compliance` with the keyword fixed: what the rest of the model uses. */
  function ValidateComplianceFixed(req: ComplianceValidationRequest, reply: Reply, ext: Externals)
    : (r: ComplianceValidationResponse)
    ensures r.success <==> Validate(req, reply, ext, AsWritten).success
    ensures r.success ==>
      && r.complianceStatus == ValidateCompliance(req, reply, ext).complianceStatus
      && r.complianceScore == ValidateCompliance(req, reply, ext).complianceScore
      && r.summary == ValidateCompliance(req, reply, ext).summary
      && r.recommendations == ValidateCompliance(req, reply, ext).recommendations
    ensures !r.success ==> r == ValidateCompliance(req, reply, ext)
  {
    FixKeepsOutcome(req, reply, ext);
    Validate(req, reply, ext, Fixed)
  }

  /**
   * Fixing the keyword changes only which entries survive conversion:
   * whether the analysis succeeds, and every other field, stay the same.
   */
  lemma FixKeepsOutcome(req: ComplianceValidationRequest, reply: Reply, ext: Externals)
    ensures Validate(req, reply, ext, Fixed).success == Validate(req, reply, ext, AsWritten).success
    ensures Validate(req, reply, ext, Fixed).success ==>
      && Validate(req, reply, ext, Fixed).complianceStatus == Validate(req, reply, ext, AsWritten).complianceStatus
      && Validate(req, reply, ext, Fixed).complianceScore == Validate(req, reply, ext, AsWritten).complianceScore
      && Validate(req, reply, ext, Fixed).summary == Validate(req, reply, ext, AsWritten).summary
      && Validate(req, reply, ext, Fixed).recommendations == Validate(req, reply, ext, AsWritten).recommendations
    ensures !Validate(req, reply, ext, Fixed).success ==>
      Validate(req, reply, ext, Fixed) == Validate(req, reply, ext, AsWritten)
  {
    AnalyseKeepsOutcome(req, reply, ext);
  }

  /** `FixKeepsOutcome` before the `except` branch. */
  lemma AnalyseKeepsOutcome(req: ComplianceValidationRequest, reply: Reply, ext: Externals)
    ensures Analyse(req, reply, ext, Fixed).Success? <==> Analyse(req, reply, ext, AsWritten).Success?
    ensures Analyse(req, reply, ext, Fixed).Failure? ==>
      Analyse(req, reply, ext, Fixed).error == Analyse(req, reply, ext, AsWritten).error
    ensures Analyse(req, reply, ext, Fixed).Success? ==>
      var fixedResponse, written := Analyse(req, reply, ext, Fixed).value, Analyse(req, reply, ext, AsWritten).value;
      && fixedResponse.complianceStatus == written.complianceStatus
      && fixedResponse.complianceScore == written.complianceScore
      && fixedResponse.summary == written.summary
      && fixedResponse.recommendations == written.recommendations
  {
    var text := ReplyText(reply);
    if text.Success? {
      var fields := AsDict(ParseResponse(text.value, ext.decode, Fallback));
      if fields.Success? {
        assert Analyse(req, reply, ext, Fixed) == Build(req, fields.value, ext.parseFloat, Fixed);
        assert Analyse(req, reply, ext, AsWritten) == Build(req, fields.value, ext.parseFloat, AsWritten);
        BuildKeepsOutcome(req, fields.value, ext.parseFloat);
      }
    }
  }

  /** `FixKeepsOutcome` for the decoded dictionary. */
  lemma BuildKeepsOutcome(req: ComplianceValidationRequest, fields: map<string, Json>, parseFloat: string -> Option<real>)
    ensures Build(req, fields, parseFloat, Fixed).Success? <==> Build(req, fields, parseFloat, AsWritten).Success?
    ensures Build(req, fields, parseFloat, Fixed).Failure? ==>
      Build(req, fields, parseFloat, Fixed).error == Build(req, fields, parseFloat, AsWritten).error
    ensures Build(req, fields, parseFloat, Fixed).Success? ==>
      var fixedResponse, written := Build(req, fields, parseFloat, Fixed).value, Build(req, fields, parseFloat, AsWritten).value;
      && fixedResponse.complianceStatus == written.complianceStatus
      && fixedResponse.complianceScore == written.complianceScore
      && fixedResponse.summary == written.summary
      && fixedResponse.recommendations == written.recommendations
  {
    ConvertEntriesShape(Get(fields, "mismatches", JArr([])), "mismatches", MakeMismatchFixed, MakeMismatch);
    ConvertEntriesShape(Get(fields, "matches", JArr([])), "matches", MakeMatchFixed, MakeMatch);
  }

  /**
   * What `validate_compliance` needs to succeed, each key of the decoded
   * dictionary being optional: mismatches and matches it can iterate, a
   * score `float()` accepts, a status text, a summary dictionary, a list of
   * recommendation strings, and a difference list with a length in each of
   * the request's analyses.
   */
  predicate Readable(req: ComplianceValidationRequest, fields: map<string, Json>, parseFloat: string -> Option<real>) {
    && Iterable(Get(fields, "mismatches", JArr([])))
    && Iterable(Get(fields, "matches", JArr([])))
    && ScoreOf(Get(fields, "compliance_score", JNum(0.0)), parseFloat).Success?
    && ChangesCount(req.codeAnalysis).Success?
    && ChangesCount(req.specAnalysis).Success?
    && Get(fields, "compliance_status", JStr("unknown")).JStr?
    && Get(fields, "summary", JObj(map[])).JObj?
    && IsStringList(Get(fields, "recommendations", JArr([])))
  }

  /**
   * The response carries what the dictionary says: the status as given
   * ("unknown" when absent), the score as `float()` reads it (0.0 when
   * absent), the converted entries, the summary and the recommendations.
   */
  predicate ReadFrom(r: ComplianceValidationResponse, fields: map<string, Json>,
                     parseFloat: string -> Option<real>, conv: Converters) {
    var recommendations := Get(fields, "recommendations", JArr([]));
    && Get(fields, "compliance_status", JStr("unknown")) == JStr(r.complianceStatus)
    && ScoreOf(Get(fields, "compliance_score", JNum(0.0)), parseFloat) == Success(r.complianceScore)
    && r.mismatches == Collected(Get(fields, "mismatches", JArr([])), conv.mismatch)
    && r.matches == Collected(Get(fields, "matches", JArr([])), conv.matching)
    && Get(fields, "summary", JObj(map[])) == JObj(r.summary)
    && recommendations.JArr? && |r.recommendations| == |recommendations.items|
    && forall i | 0 <= i < |r.recommendations| :: recommendations.items[i] == JStr(r.recommendations[i])
  }

  /** `ValidateReadsReply` for the decoded dictionary. */
  lemma BuildReadsFields(req: ComplianceValidationRequest, fields: map<string, Json>,
                         parseFloat: string -> Option<real>, conv: Converters)
    ensures Build(req, fields, parseFloat, conv).Success? <==> Readable(req, fields, parseFloat)
    ensures Build(req, fields, parseFloat, conv).Success? ==> ReadFrom(Build(req, fields, parseFloat, conv).value, fields, parseFloat, conv)
  {
    ConvertEntriesReads(Get(fields, "mismatches", JArr([])), "mismatches", conv.mismatch);
    ConvertEntriesReads(Get(fields, "matches", JArr([])), "matches", conv.matching);
  }

  /**
   * A reply that decodes to a dictionary gives a successful validation
   * exactly when the dictionary and the request are readable, and the
   * validation then carries what the dictionary says.
   */
  lemma ValidateReadsReply(req: ComplianceValidationRequest, text: string, ext: Externals, conv: Converters,
                           fields: map<string, Json>)
    requires ext.decode(DecoderInput(text)) == Some(JObj(fields))
    ensures Validate(req, Answered(Some(text)), ext, conv).success <==> Readable(req, fields, ext.parseFloat)
    ensures Validate(req, Answered(Some(text)), ext, conv).success ==>
      ReadFrom(Validate(req, Answered(Some(text)), ext, conv), fields, ext.parseFloat, conv)
  {
    assert ParseResponse(text, ext.decode, Fallback) == JObj(fields);
    assert Analyse(req, Answered(Some(text)), ext, conv) == Build(req, fields, ext.parseFloat, conv);
    BuildReadsFields(req, fields, ext.parseFloat, conv);
  }

  /** A reply that decodes to something other than a dictionary fails on `.get`. */
  lemma NonObjectReply(req: ComplianceValidationRequest, text: string, ext: Externals, conv: Converters, v: Json)
    requires ext.decode(DecoderInput(text)) == Some(v) && !v.JObj?
    ensures Validate(req, Answered(Some(text)), ext, conv) == FailureResponse(ext.describe(NotADict))
  {
    assert ParseResponse(text, ext.decode, Fallback) == v;
  }

  /** A match entry whose three fields are strings, or absent. */
  predicate MatchShaped(v: Json) {
    && v.JObj?
    && Get(v.fields, "description", JStr("")).JStr?
    && Get(v.fields, "code_reference", JStr("")).JStr?
    && Get(v.fields, "doc_reference", JStr("")).JStr?
  }

  /** With the keyword fixed, every such entry converts, keeping its three texts. */
  lemma MatchShapedConverts(v: Json)
    requires MatchShaped(v)
    ensures MakeMatchFixed(v).Some?
    ensures JStr(MakeMatchFixed(v).value.description) == Get(v.fields, "description", JStr(""))
    ensures JStr(MakeMatchFixed(v).value.codeReference) == Get(v.fields, "code_reference", JStr(""))
    ensures JStr(MakeMatchFixed(v).value.specReference) == Get(v.fields, "doc_reference", JStr(""))
  {
  }

  /**
   * With the keyword fixed, a successful validation keeps every match entry
   * of the reply, in order, each with its reference to the specification.
   */
  lemma FixedKeepsMatches(req: ComplianceValidationRequest, text: string, ext: Externals,
                          fields: map<string, Json>, items: seq<Json>)
    requires ext.decode(DecoderInput(text)) == Some(JObj(fields))
    requires Get(fields, "matches", JArr([])) == JArr(items)
    requires forall i | 0 <= i < |items| :: MatchShaped(items[i])
    ensures ValidateComplianceFixed(req, Answered(Some(text)), ext).success ==>
      var r := ValidateComplianceFixed(req, Answered(Some(text)), ext);
      && |r.matches| == |items|
      && forall i | 0 <= i < |items| ::
           && items[i].JObj?
           && JStr(r.matches[i].description) == Get(items[i].fields, "description", JStr(""))
           && JStr(r.matches[i].specReference) == Get(items[i].fields, "doc_reference", JStr(""))
  {
    var r := ValidateComplianceFixed(req, Answered(Some(text)), ext);
    assert r == Validate(req, Answered(Some(text)), ext, Fixed);
    if r.success {
      ValidateReadsReply(req, text, ext, Fixed, fields);
      assert r.matches == ConvertAll(items, MakeMatchFixed);
      ShapedMatchesConvert(items);
    }
  }

  /** The corrected `_make_matches` loop keeps every well-shaped entry, in order, with its texts. */
  lemma ShapedMatchesConvert(items: seq<Json>)
    requires forall i | 0 <= i < |items| :: MatchShaped(items[i])
    ensures |ConvertAll(items, MakeMatchFixed)| == |items|
    ensures forall i | 0 <= i < |items| ::
      && items[i].JObj?
      && JStr(ConvertAll(items, MakeMatchFixed)[i].description) == Get(items[i].fields, "description", JStr(""))
      && JStr(ConvertAll(items, MakeMatchFixed)[i].specReference) == Get(items[i].fields, "doc_reference", JStr(""))
  {
    forall i | 0 <= i < |items|
      ensures MakeMatchFixed(items[i]).Some?
    {
      MatchShapedConverts(items[i]);
    }
    ConvertAllKeepsGood(items, MakeMatchFixed);
    forall i | 0 <= i < |items|
      ensures JStr(ConvertAll(items, MakeMatchFixed)[i].description) == Get(items[i].fields, "description", JStr(""))
      ensures JStr(ConvertAll(items, MakeMatchFixed)[i].specReference) == Get(items[i].fields, "doc_reference", JStr(""))
    {
      MatchShapedConverts(items[i]);
    }
  }

  /**
   * A reply that does not decode still counts as a success, with status
   * "error", score 0.0, no entries and one recommendation.
   */
  lemma UndecodableReply(req: ComplianceValidationRequest, text: string, ext: Externals, conv: Converters)
    requires ext.decode(DecoderInput(text)).None?
    requires ChangesCount(req.codeAnalysis).Success? && ChangesCount(req.specAnalysis).Success?
    ensures Validate(req, Answered(Some(text)), ext, conv) == ComplianceValidationResponse(
      true, "error", [], [], 0.0,
      map["total_code_changes" := JNum(0.0), "total_doc_changes" := JNum(0.0)],
      ["Could not parse LLM response"],
      ComplianceMetadata(ChangesCount(req.codeAnalysis).value, ChangesCount(req.specAnalysis).value, 0, 0, "llm_based"))
  {
    assert ParseResponse(text, ext.decode, Fallback) == Fallback;
    assert Analyse(req, Answered(Some(text)), ext, conv) == Build(req, Fallback.fields, ext.parseFloat, conv);
    FallbackBuild(req, ext.parseFloat, conv);
  }

  /** The fallback dictionary builds the fallback response. */
  lemma FallbackBuild(req: ComplianceValidationRequest, parseFloat: string -> Option<real>, conv: Converters)
    requires ChangesCount(req.codeAnalysis).Success? && ChangesCount(req.specAnalysis).Success?
    ensures Build(req, Fallback.fields, parseFloat, conv) == Success(ComplianceValidationResponse(
      true, "error", [], [], 0.0,
      map["total_code_changes" := JNum(0.0), "total_doc_changes" := JNum(0.0)],
      ["Could not parse LLM response"],
      ComplianceMetadata(ChangesCount(req.codeAnalysis).value, ChangesCount(req.specAnalysis).value, 0, 0, "llm_based")))
  {
    var fields := Fallback.fields;
    assert Get(fields, "mismatches", JArr([])) == JArr([]);
    assert Get(fields, "matches", JArr([])) == JArr([]);
    assert Get(fields, "compliance_status", JStr("unknown")) == JStr("error");
    assert Get(fields, "compliance_score", JNum(0.0)) == JNum(0.0);
    assert Get(fields, "summary", JObj(map[])) == JObj(map["total_code_changes" := JNum(0.0), "total_doc_changes" := JNum(0.0)]);
    assert Get(fields, "recommendations", JArr([])) == JArr([JStr("Could not parse LLM response")]);
    FallbackRecommendations("Could not parse LLM response");
  }
}
