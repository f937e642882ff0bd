/**
 * `SpecificationAnalyzer` (api/services/spec_analyzer.py): turns the
 * reasoning service's reply about two specification versions into a
 * `SpecificationComparisonResponse`. The reply arrives as an input.
 */
module SpecAnalyzer {
  import opened Wrappers
  import opened JsonValues
  import opened Schemas
  import opened LlmReply

  /** `SpecificationComparisonRequest`. */
  datatype SpecificationComparisonRequest = SpecificationComparisonRequest(oldSpec: string, newSpec: string)

  /** The `analysis_metadata` dictionary: the counters of a success, or `{'error': True}`. */
  datatype SpecMetadata =
    | SpecMetadata(
        oldSpecLength: nat,
        newSpecLength: nat,
        totalDifferences: nat,
        newFeaturesCount: nat,
        removedFeaturesCount: nat,
        behavioralChangesCount: nat,
        analysisMethod: string)
    | ErrorMetadata

  /** `SpecificationComparisonResponse`. */
  datatype SpecificationComparisonResponse = SpecificationComparisonResponse(
    success: bool,
    differences: seq<SpecificationDifference>,
    newFeatures: seq<SpecificationFeature>,
    removedFeatures: seq<SpecificationFeature>,
    behavioralChanges: seq<SpecificationBehaviorChange>,
    changeSummary: map<string, Json>,
    recommendations: seq<string>,
    analysisMetadata: SpecMetadata)

  /** What `_parse_response` returns when the reply does not decode. */
  const Fallback: Json := JObj(map[
    "differences" := JArr([]),
    "new_features" := JArr([]),
    "removed_features" := JArr([]),
    "behavioral_changes" := JArr([]),
    "change_summary" := JObj(map["total_changes" := JNum(0.0)]),
    "recommendations" := JArr([JStr("Could not parse LLM response")])])

  /** One entry of `_make_differences`, or `None` when construction raises. */
  function MakeDifference(entry: Json): (r: Option<SpecificationDifference>)
    ensures !entry.JObj? ==> r.None?
    ensures r.Some? && "section" !in entry.fields ==> r.value.section == "unknown"
    ensures r.Some? && "change_type" !in entry.fields ==> r.value.changeType == "modified"
    ensures r.Some? && "description" !in entry.fields ==> r.value.description == ""
    ensures r.Some? && "old_content" !in entry.fields ==> r.value.oldContent.None?
    ensures r.Some? && "new_content" !in entry.fields ==> r.value.newContent.None?
    ensures r.Some? && "section" in entry.fields ==> entry.fields["section"] == JStr(r.value.section)
    ensures entry.JObj? && "section" in entry.fields && !entry.fields["section"].JStr? ==> r.None?
  {
    match entry
    case JObj(d) =>
      ValidateSpecificationDifference(map[
        "section" := Get(d, "section", JStr("unknown")),
        "change_type" := Get(d, "change_type", JStr("modified")),
        "old_content" := Get(d, "old_content", JNull),
        "new_content" := Get(d, "new_content", JNull),
        "description" := Get(d, "description", JStr(""))])
    case _ => None
  }

  /** One entry of `_make_features`, or `None` when construction raises. */
  function MakeFeature(entry: Json): (r: Option<SpecificationFeature>)
    ensures !entry.JObj? ==> r.None?
    ensures r.Some? && "feature" !in entry.fields ==> r.value.feature == "unknown"
    ensures r.Some? && "description" !in entry.fields ==> r.value.description == ""
    ensures r.Some? && "impact" !in entry.fields ==> r.value.impact == ""
    ensures r.Some? && "feature" in entry.fields ==> entry.fields["feature"] == JStr(r.value.feature)
  {
    match entry
    case JObj(d) =>
      ValidateSpecificationFeature(map[
        "feature" := Get(d, "feature", JStr("unknown")),
        "description" := Get(d, "description", JStr("")),
        "impact" := Get(d, "impact", JStr(""))])
    case _ => None
  }

  /** One entry of `_make_behavior_changes`, or `None` when construction raises. */
  function MakeBehaviorChange(entry: Json): (r: Option<SpecificationBehaviorChange>)
    ensures !entry.JObj? ==> r.None?
    ensures r.Some? && "change" !in entry.fields ==> r.value.change == "unknown"
    ensures r.Some? && "old_behavior" !in entry.fields ==> r.value.oldBehavior == ""
    ensures r.Some? && "new_behavior" !in entry.fields ==> r.value.newBehavior == ""
    ensures r.Some? && "security_impact" !in entry.fields ==> r.value.securityImpact == ""
    ensures r.Some? && "change" in entry.fields ==> entry.fields["change"] == JStr(r.value.change)
  {
    match entry
    case JObj(d) =>
      ValidateSpecificationBehaviorChange(map[
        "change" := Get(d, "change", JStr("unknown")),
        "old_behavior" := Get(d, "old_behavior", JStr("")),
        "new_behavior" := Get(d, "new_behavior", JStr("")),
        "security_impact" := Get(d, "security_impact", JStr(""))])
    case _ => None
  }

  /** Entries made only of defaults, and entries whose fields are all strings, always convert. */
  lemma EntriesOfStringsConvert(feature: string, description: string, impact: string)
    ensures MakeDifference(JObj(map[])) == Some(SpecificationDifference("unknown", "modified", None, None, ""))
    ensures MakeFeature(JObj(map[])) == Some(SpecificationFeature("unknown", "", ""))
    ensures MakeBehaviorChange(JObj(map[])) == Some(SpecificationBehaviorChange("unknown", "", "", ""))
    ensures MakeFeature(JObj(map["feature" := JStr(feature), "description" := JStr(description), "impact" := JStr(impact)]))
         == Some(SpecificationFeature(feature, description, impact))
  {
  }

  /** A feature whose impact is not a string (a number, say) is skipped. */
  lemma NonStringImpactIsSkipped(d: map<string, Json>)
    requires "impact" in d && !d["impact"].JStr?
    ensures MakeFeature(JObj(d)).None?
  {
  }

  /** The body of the `try` in `compare_specs`. */
  function Analyse(req: SpecificationComparisonRequest, reply: Reply, ext: Externals)
    : Result<SpecificationComparisonResponse, AnalysisError>
  {
    var text :- ReplyText(reply);
    var analysis := ParseResponse(text, ext.decode, Fallback);
    var fields :- AsDict(analysis);
    Build(req, fields)
  }

  /** The part of the `try` that works on the decoded dictionary. */
  function Build(req: SpecificationComparisonRequest, fields: map<string, Json>)
    : Result<SpecificationComparisonResponse, AnalysisError>
  {
    var differences :- ConvertEntries(Get(fields, "differences", JArr([])), "differences", MakeDifference);
    var newFeatures :- ConvertEntries(Get(fields, "new_features", JArr([])), "new_features", MakeFeature);
    var removedFeatures :- ConvertEntries(Get(fields, "removed_features", JArr([])), "removed_features", MakeFeature);
    var changes :- ConvertEntries(Get(fields, "behavioral_changes", JArr([])), "behavioral_changes", MakeBehaviorChange);
    var summary :- DictField(Get(fields, "change_summary", JObj(map[])), "change_summary");
    var recommendations :- StringListField(Get(fields, "recommendations", JArr([])), "recommendations");
    var metadata := SpecMetadata(
      |req.oldSpec|, |req.newSpec|,
      |differences|, |newFeatures|, |removedFeatures|, |changes|, "llm_based");
    Success(SpecificationComparisonResponse(
      true, differences, newFeatures, removedFeatures, changes, summary, recommendations, metadata))
  }

  /** The response built by the `except` branch of `compare_specs`. */
  function FailureResponse(message: string): SpecificationComparisonResponse {
    SpecificationComparisonResponse(
      false, [], [], [], [], map["error" := JStr(message)], ["Analysis failed: " + message], ErrorMetadata)
  }

  /**
   * `compare_specs`: a successful response whose counters equal its list
   * lengths and whose lengths are the request's, or the failure response
   * carrying the error text.
   */
  function CompareSpecs(req: SpecificationComparisonRequest, reply: Reply, ext: Externals)
    : (r: SpecificationComparisonResponse)
    ensures r.success ==>
      && r.analysisMetadata.SpecMetadata?
      && r.analysisMetadata.oldSpecLength == |req.oldSpec|
      && r.analysisMetadata.newSpecLength == |req.newSpec|
      && r.analysisMetadata.totalDifferences == |r.differences|
      && r.analysisMetadata.newFeaturesCount == |r.newFeatures|
      && r.analysisMetadata.removedFeaturesCount == |r.removedFeatures|
      && r.analysisMetadata.behavioralChangesCount == |r.behavioralChanges|
    ensures !r.success ==>
      && r.differences == [] && r.newFeatures == [] && r.removedFeatures == [] && r.behavioralChanges == []
      && r.analysisMetadata == ErrorMetadata
      && exists e: AnalysisError :: r == FailureResponse(ErrorText(e, ext))
    ensures reply.Failed? ==> r == FailureResponse("OpenAI failed: " + reply.message)
    ensures reply == Answered(None) ==> r == FailureResponse(ext.describe(NoReplyText))
  {
    match Analyse(req, reply, ext)
    case Success(response) => response
    case Failure(e) => FailureResponse(ErrorText(e, ext))
  }

  /** A reply that does not decode yields the fixed fallback analysis. */
  lemma UndecodableReply(req: SpecificationComparisonRequest, text: string, ext: Externals)
    requires ext.decode(DecoderInput(text)).None?
    ensures CompareSpecs(req, Answered(Some(text)), ext) == SpecificationComparisonResponse(
      true, [], [], [], [],
      map["total_changes" := JNum(0.0)],
      ["Could not parse LLM response"],
      SpecMetadata(|req.oldSpec|, |req.newSpec|, 0, 0, 0, 0, "llm_based"))
  {
    assert ParseResponse(text, ext.decode, Fallback) == Fallback;
    assert Analyse(req, Answered(Some(text)), ext) == Build(req, Fallback.fields);
    FallbackBuild(req);
  }

  /** The fallback dictionary builds the fallback response. */
  lemma FallbackBuild(req: SpecificationComparisonRequest)
    ensures Build(req, Fallback.fields) == Success(SpecificationComparisonResponse(
      true, [], [], [], [],
      map["total_changes" := JNum(0.0)],
      ["Could not parse LLM response"],
      SpecMetadata(|req.oldSpec|, |req.newSpec|, 0, 0, 0, 0, "llm_based")))
  {
    var fields := Fallback.fields;
    assert Get(fields, "differences", JArr([])) == JArr([]);
    assert Get(fields, "new_features", JArr([])) == JArr([]);
    assert Get(fields, "removed_features", JArr([])) == JArr([]);
    assert Get(fields, "behavioral_changes", JArr([])) == JArr([]);
    assert Get(fields, "change_summary", JObj(map[])) == JObj(map["total_changes" := JNum(0.0)]);
    assert Get(fields, "recommendations", JArr([])) == JArr([JStr("Could not parse LLM response")]);
    FallbackRecommendations("Could not parse LLM response");
  }

  /**
   * What a decoded dictionary must hold for `compare_specs` to succeed, each
   * key being optional: four lists it can iterate, a summary dictionary and
   * a list of recommendation strings.
   */
  predicate Readable(fields: map<string, Json>) {
    && Iterable(Get(fields, "differences", JArr([])))
    && Iterable(Get(fields, "new_features", JArr([])))
    && Iterable(Get(fields, "removed_features", JArr([])))
    && Iterable(Get(fields, "behavioral_changes", JArr([])))
    && Get(fields, "change_summary", JObj(map[])).JObj?
    && IsStringList(Get(fields, "recommendations", JArr([])))
  }

  /** The response carries the dictionary's converted lists, its summary and its recommendations. */
  predicate ReadFrom(r: SpecificationComparisonResponse, fields: map<string, Json>) {
    var recommendations := Get(fields, "recommendations", JArr([]));
    && r.differences == Collected(Get(fields, "differences", JArr([])), MakeDifference)
    && r.newFeatures == Collected(Get(fields, "new_features", JArr([])), MakeFeature)
    && r.removedFeatures == Collected(Get(fields, "removed_features", JArr([])), MakeFeature)
    && r.behavioralChanges == Collected(Get(fields, "behavioral_changes", JArr([])), MakeBehaviorChange)
    && Get(fields, "change_summary", JObj(map[])) == JObj(r.changeSummary)
    && recommendations.JArr? && |r.recommendations| == |recommendations.items|
    && forall i | 0 <= i < |r.recommendations| :: recommendations.items[i] == JStr(r.recommendations[i])
  }

  /** `CompareSpecsReadsReply` for the decoded dictionary. */
  lemma BuildReadsFields(req: SpecificationComparisonRequest, fields: map<string, Json>)
    ensures Build(req, fields).Success? <==> Readable(fields)
    ensures Build(req, fields).Success? ==> ReadFrom(Build(req, fields).value, fields)
  {
    ConvertEntriesReads(Get(fields, "differences", JArr([])), "differences", MakeDifference);
    ConvertEntriesReads(Get(fields, "new_features", JArr([])), "new_features", MakeFeature);
    ConvertEntriesReads(Get(fields, "removed_features", JArr([])), "removed_features", MakeFeature);
    ConvertEntriesReads(Get(fields, "behavioral_changes", JArr([])), "behavioral_changes", MakeBehaviorChange);
  }

  /**
   * A reply that decodes to a dictionary gives a successful comparison
   * exactly when the dictionary is readable, and the comparison then carries
   * what the dictionary says.
   */
  lemma CompareSpecsReadsReply(req: SpecificationComparisonRequest, text: string, ext: Externals, fields: map<string, Json>)
    requires ext.decode(DecoderInput(text)) == Some(JObj(fields))
    ensures CompareSpecs(req, Answered(Some(text)), ext).success <==> Readable(fields)
    ensures CompareSpecs(req, Answered(Some(text)), ext).success ==> ReadFrom(CompareSpecs(req, Answered(Some(text)), ext), fields)
  {
    assert ParseResponse(text, ext.decode, Fallback) == JObj(fields);
    assert Analyse(req, Answered(Some(text)), ext) == Build(req, fields);
    BuildReadsFields(req, fields);
  }

  /** A reply that decodes to something other than a dictionary fails on `.get`. */
  lemma NonObjectReply(req: SpecificationComparisonRequest, text: string, ext: Externals, v: Json)
    requires ext.decode(DecoderInput(text)) == Some(v) && !v.JObj?
    ensures CompareSpecs(req, Answered(Some(text)), ext) == FailureResponse(ext.describe(NotADict))
  {
    assert ParseResponse(text, ext.decode, Fallback) == v;
  }

  /**
   * The new and the removed features are the entry-by-entry conversions of
   * the reply's two lists, by the same conversion.
   */
  lemma FeatureListsFromReply(req: SpecificationComparisonRequest, text: string, ext: Externals,
                              fields: map<string, Json>, added: seq<Json>, removed: seq<Json>)
    requires ext.decode(DecoderInput(text)) == Some(JObj(fields))
    requires "new_features" in fields && fields["new_features"] == JArr(added)
    requires "removed_features" in fields && fields["removed_features"] == JArr(removed)
    ensures CompareSpecs(req, Answered(Some(text)), ext).success ==>
      && CompareSpecs(req, Answered(Some(text)), ext).newFeatures == ConvertAll(added, MakeFeature)
      && CompareSpecs(req, Answered(Some(text)), ext).removedFeatures == ConvertAll(removed, MakeFeature)
  {
    assert ParseResponse(text, ext.decode, Fallback) == JObj(fields);
    assert Analyse(req, Answered(Some(text)), ext) == Build(req, fields);
    BuildFeatures(req, fields, added, removed);
  }

  /** `FeatureListsFromReply` for the decoded dictionary. */
  lemma BuildFeatures(req: SpecificationComparisonRequest, fields: map<string, Json>, added: seq<Json>, removed: seq<Json>)
    requires "new_features" in fields && fields["new_features"] == JArr(added)
    requires "removed_features" in fields && fields["removed_features"] == JArr(removed)
    ensures Build(req, fields).Success? ==>
      && Build(req, fields).value.newFeatures == ConvertAll(added, MakeFeature)
      && Build(req, fields).value.removedFeatures == ConvertAll(removed, MakeFeature)
  {
    assert Get(fields, "new_features", JArr([])) == JArr(added);
    assert Get(fields, "removed_features", JArr([])) == JArr(removed);
  }
}
