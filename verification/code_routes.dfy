/**
 * The four endpoints of api/routes/code_routes.py: the request checks each
 * makes before calling its service, and how the service's result becomes a
 * response or an `HTTPException`. Every service call is the model's own
 * function of the request and of the outside inputs (the reasoning
 * service's reply, the outcome of the headless run); the compliance
 * endpoint uses the conversion with the reference keyword fixed.
 */
module CodeRoutes {
  import opened Wrappers
  import opened JsonValues
  import opened Schemas
  import opened LlmReply
  import Text
  import CodeAnalyzer
  import SpecAnalyzer
  import ComplianceAnalyzer
  import GhidraService

  /** What an endpoint answers: its response model, or an `HTTPException` with status and detail. */
  datatype HttpOutcome<T> = Ok(body: T) | HttpError(status: int, detail: string)

  /**
   * The text an f-string makes of `summary.get('error', 'Unknown error')`.
   * Every failure response stores a string there, so other values, whose
   * rendering is not modelled, do not reach it.
   */
  function SummaryError(summary: map<string, Json>): string {
    match Get(summary, "error", JStr("Unknown error"))
    case JStr(s) => s
    case _ => "Unknown error"
  }

  /**
   * The detail of a failed analysis. The route raises `HTTPException(500,
   * prefix + error)` inside its own `try`, whose `except Exception` catches it
   * and raises again with `str(e)`, which reads "500: " followed by the
   * first detail.
   */
  function Rewrapped(context: string, prefix: string, error: string): string {
    "Error during " + context + ": 500: " + prefix + error
  }

  /**
   * The two checks every comparison route makes on its pair of texts: both
   * non-empty (else `missing`), then both with something left after
   * stripping (else `blank`).
   */
  function CheckPair(a: string, b: string, missing: string, blank: string): (r: Option<string>)
    ensures r.Some? <==> Text.IsBlank(a) || Text.IsBlank(b)
    ensures r.Some? ==> r.value == if a == "" || b == "" then missing else blank
  {
    Text.StripEmptyIffBlank(a);
    Text.StripEmptyIffBlank(b);
    if a == "" || b == "" then Some(missing)
    else if Text.Strip(a) == "" || Text.Strip(b) == "" then Some(blank)
    else None
  }

  /**
   * The `try` of `/compare-code` once the checks pass: the analysis when it
   * succeeded, else 500 with the error its summary records.
   */
  function CodeAnswer(result: CodeAnalyzer.CodeComparisonResponse, ext: Externals)
    : (r: HttpOutcome<CodeAnalyzer.CodeComparisonResponse>)
    requires result.success || exists e: AnalysisError :: result == CodeAnalyzer.FailureResponse(ErrorText(e, ext))
    ensures r.Ok? <==> result.success
    ensures r.Ok? ==> r.body == result
    ensures r.HttpError? ==>
      && r.status == 500
      && exists e: AnalysisError :: r.detail == Rewrapped("code comparison", "Analysis failed: ", ErrorText(e, ext))
  {
    if !result.success then
      var e: AnalysisError :| result == CodeAnalyzer.FailureResponse(ErrorText(e, ext));
      assert SummaryError(result.changeSummary) == ErrorText(e, ext);
      HttpError(500, Rewrapped("code comparison", "Analysis failed: ", SummaryError(result.changeSummary)))
    else Ok(result)
  }

  /**
   * `POST /compare-code`: 400 exactly when one of the codes is blank; 500
   * carrying the analysis error when the analysis fails; otherwise the
   * analysis itself.
   */
  function CompareCode(req: CodeAnalyzer.CodeComparisonRequest, reply: Reply, ext: Externals)
    : (r: HttpOutcome<CodeAnalyzer.CodeComparisonResponse>)
    ensures r.HttpError? ==> r.status == 400 || r.status == 500
    ensures r.HttpError? && r.status == 400 <==> Text.IsBlank(req.oldCode) || Text.IsBlank(req.newCode)
    ensures r.HttpError? && r.status == 400 ==>
      r.detail == if req.oldCode == "" || req.newCode == "" then "Both old_code and new_code are required"
                  else "Both old_code and new_code must contain non-empty content"
    ensures r.Ok? <==>
      !Text.IsBlank(req.oldCode) && !Text.IsBlank(req.newCode) && CodeAnalyzer.CompareCodes(req, reply, ext).success
    ensures r.Ok? ==> r.body == CodeAnalyzer.CompareCodes(req, reply, ext)
    ensures r.HttpError? && r.status == 500 ==>
      exists e: AnalysisError :: r.detail == Rewrapped("code comparison", "Analysis failed: ", ErrorText(e, ext))
  {
    match CheckPair(req.oldCode, req.newCode,
      "Both old_code and new_code are required", "Both old_code and new_code must contain non-empty content")
    case Some(detail) => HttpError(400, detail)
    case None => CodeAnswer(CodeAnalyzer.CompareCodes(req, reply, ext), ext)
  }

  /**
   * The `try` of `/compare-specs` once the checks pass: the analysis when it
   * succeeded, else 500 with the error its summary records.
   */
  function SpecAnswer(result: SpecAnalyzer.SpecificationComparisonResponse, ext: Externals)
    : (r: HttpOutcome<SpecAnalyzer.SpecificationComparisonResponse>)
    requires result.success || exists e: AnalysisError :: result == SpecAnalyzer.FailureResponse(ErrorText(e, ext))
    ensures r.Ok? <==> result.success
    ensures r.Ok? ==> r.body == result
    ensures r.HttpError? ==>
      && r.status == 500
      && exists e: AnalysisError :: r.detail == Rewrapped("specification comparison", "Analysis failed: ", ErrorText(e, ext))
  {
    if !result.success then
      var e: AnalysisError :| result == SpecAnalyzer.FailureResponse(ErrorText(e, ext));
      assert SummaryError(result.changeSummary) == ErrorText(e, ext);
      HttpError(500, Rewrapped("specification comparison", "Analysis failed: ", SummaryError(result.changeSummary)))
    else Ok(result)
  }

  /**
   * `POST /compare-specs`: 400 exactly when one of the specifications is
   * blank; 500 carrying the analysis error when the analysis fails;
   * otherwise the analysis itself.
   */
  function CompareSpecs(req: SpecAnalyzer.SpecificationComparisonRequest, reply: Reply, ext: Externals)
    : (r: HttpOutcome<SpecAnalyzer.SpecificationComparisonResponse>)
    ensures r.HttpError? ==> r.status == 400 || r.status == 500
    ensures r.HttpError? && r.status == 400 <==> Text.IsBlank(req.oldSpec) || Text.IsBlank(req.newSpec)
    ensures r.HttpError? && r.status == 400 ==>
      r.detail == if req.oldSpec == "" || req.newSpec == "" then "Both old_spec and new_spec are required"
                  else "Both old_spec and new_spec must contain non-empty content"
    ensures r.Ok? <==>
      !Text.IsBlank(req.oldSpec) && !Text.IsBlank(req.newSpec) && SpecAnalyzer.CompareSpecs(req, reply, ext).success
    ensures r.Ok? ==> r.body == SpecAnalyzer.CompareSpecs(req, reply, ext)
    ensures r.HttpError? && r.status == 500 ==>
      exists e: AnalysisError :: r.detail == Rewrapped("specification comparison", "Analysis failed: ", ErrorText(e, ext))
  {
    match CheckPair(req.oldSpec, req.newSpec,
      "Both old_spec and new_spec are required", "Both old_spec and new_spec must contain non-empty content")
    case Some(detail) => HttpError(400, detail)
    case None => SpecAnswer(SpecAnalyzer.CompareSpecs(req, reply, ext), ext)
  }

  /**
   * The `try` of `/validate-compliance` once the check passes: the
   * validation when it succeeded, else 500 with the error its summary
   * records.
   */
  function ComplianceAnswer(result: ComplianceAnalyzer.ComplianceValidationResponse, ext: Externals)
    : (r: HttpOutcome<ComplianceAnalyzer.ComplianceValidationResponse>)
    requires result.success || exists e: AnalysisError :: result == ComplianceAnalyzer.FailureResponse(ErrorText(e, ext))
    ensures r.Ok? <==> result.success
    ensures r.Ok? ==> r.body == result
    ensures r.HttpError? ==>
      && r.status == 500
      && exists e: AnalysisError :: r.detail == Rewrapped("compliance validation", "Validation failed: ", ErrorText(e, ext))
  {
    if !result.success then
      var e: AnalysisError :| result == ComplianceAnalyzer.FailureResponse(ErrorText(e, ext));
      assert SummaryError(result.summary) == ErrorText(e, ext);
      HttpError(500, Rewrapped("compliance validation", "Validation failed: ", SummaryError(result.summary)))
    else Ok(result)
  }

  /**
   * `POST /validate-compliance`: 400 exactly when one of the analyses is an
   * empty dictionary; 500 carrying the validation error when validation
   * fails; otherwise the validation itself.
   */
  function ValidateCompliance(req: ComplianceAnalyzer.ComplianceValidationRequest, reply: Reply, ext: Externals)
    : (r: HttpOutcome<ComplianceAnalyzer.ComplianceValidationResponse>)
    ensures r.HttpError? ==> r.status == 400 || r.status == 500
    ensures r.HttpError? && r.status == 400 <==> |req.codeAnalysis| == 0 || |req.specAnalysis| == 0
    ensures r.HttpError? && r.status == 400 ==> r.detail == "Both code_analysis and spec_analysis are required"
    ensures r.Ok? <==>
      |req.codeAnalysis| > 0 && |req.specAnalysis| > 0
      && ComplianceAnalyzer.ValidateComplianceFixed(req, reply, ext).success
    ensures r.Ok? ==> r.body == ComplianceAnalyzer.ValidateComplianceFixed(req, reply, ext)
    ensures r.HttpError? && r.status == 500 ==>
      exists e: AnalysisError :: r.detail == Rewrapped("compliance validation", "Validation failed: ", ErrorText(e, ext))
  {
    if |req.codeAnalysis| == 0 || |req.specAnalysis| == 0 then
      HttpError(400, "Both code_analysis and spec_analysis are required")
    else
      ComplianceAnswer(ComplianceAnalyzer.ValidateComplianceFixed(req, reply, ext), ext)
  }

  /** An uploaded file: its name, the size the upload declares, and its bytes. */
  datatype Upload = Upload(filename: Option<string>, declaredSize: Option<int>, content: seq<GhidraService.byte>)

  /** `d.get(k)` on the string dictionary of the metadata. */
  function Lookup(m: map<string, string>, k: string): (r: Option<string>)
    ensures r.Some? <==> k in m
    ensures r.Some? ==> r.value == m[k]
  {
    if k in m then Some(m[k]) else None
  }

  /**
   * The keywords the metadata dictionary would give a second time: the route
   * passes `file_size` and `analysis_time` itself (and drops `filename`).
   */
  function RepeatedKeywords(m: map<string, string>): (r: set<string>)
    ensures r == {} <==> "file_size" !in m && "analysis_time" !in m
  {
    (if "file_size" in m then {"file_size"} else {}) + (if "analysis_time" in m then {"analysis_time"} else {})
  }

  /**
   * The keyword arguments of the successful `BinaryMetadata(...)` call: the
   * filename and size, then every metadata entry other than `filename`
   * (the analysis time, a float, is not modelled).
   */
  function SuccessKwargs(filename: string, size: nat, m: map<string, string>): Kwargs {
    (map k | k in m && k != "filename" :: JStr(m[k]))
    + map["filename" := JStr(filename), "file_size" := JNum(size as real)]
  }

  /**
   * The metadata of a successful decompilation: the upload's name and size,
   * and each optional field taken from the entry of the same name, if any.
   */
  function SuccessMetadata(filename: string, size: nat, m: map<string, string>): (r: Option<BinaryMetadata>)
    requires RepeatedKeywords(m) == {}
    ensures r == Some(BinaryMetadata(
      filename, Lookup(m, "program"), Lookup(m, "language"), Lookup(m, "compiler"),
      Lookup(m, "architecture"), Lookup(m, "address_size"), Some(size)))
  {
    var kw := SuccessKwargs(filename, size, m);
    assert AsInt(JNum(size as real)) == Some(size);
    EntryKeyword(filename, size, m, "program");
    EntryKeyword(filename, size, m, "language");
    EntryKeyword(filename, size, m, "compiler");
    EntryKeyword(filename, size, m, "architecture");
    EntryKeyword(filename, size, m, "address_size");
    ValidateBinaryMetadata(kw)
  }

  /** A metadata entry reaches an optional string field of `BinaryMetadata` unchanged. */
  lemma EntryKeyword(filename: string, size: nat, m: map<string, string>, k: string)
    requires k != "filename" && k != "file_size"
    ensures OptStrField(SuccessKwargs(filename, size, m), k) == Some(Lookup(m, k))
  {
  }

  /** The metadata of a response that reports a failure: the filename, and the size if given. */
  function FailureMetadata(filename: string, size: Option<int>): BinaryMetadata {
    BinaryMetadata(filename, None, None, None, None, None, size)
  }

  /**
   * `POST /decompile`, given the outcome of the headless run: a nameless
   * upload, an upload declared larger than 100 MiB and a file that fails
   * validation are refused with 400; any other upload is answered with a
   * response, which reports success exactly when the run succeeded and its
   * metadata repeats no keyword the route passes itself.
   */
  function Decompile(upload: Upload, outcome: GhidraService.DecompileOutcome, ext: Externals)
    : (r: HttpOutcome<DecompileResponse>)
    ensures upload.filename.None? || upload.filename == Some("") ==> r == HttpError(400, "Filename is required")
    ensures r.HttpError? ==> r.status == 400
    ensures r.Ok? <==>
      && upload.filename.Some? && upload.filename.value != ""
      && !(upload.declaredSize.Some? && upload.declaredSize.value > GhidraService.MaxFileSize)
      && 0 < |upload.content| <= GhidraService.MaxFileSize
    ensures upload.filename.Some? && upload.filename.value != "" ==>
      && (upload.declaredSize.Some? && upload.declaredSize.value > GhidraService.MaxFileSize ==>
            r == HttpError(400, "File too large (max 100MB)"))
      && (!(upload.declaredSize.Some? && upload.declaredSize.value > GhidraService.MaxFileSize) ==>
            var validation := GhidraService.ValidateBinaryFile(GhidraService.Present(upload.content));
            !validation.0 ==> r == HttpError(400, "Invalid binary file: " + validation.1))
    ensures r.Ok? ==> r.body.metadata.filename == upload.filename.value
    ensures r.Ok? ==>
      var result := GhidraService.DecompileBinary(upload.filename.value, outcome);
      && (!result.Succeeded() ==>
            && r.body.metadata == FailureMetadata(upload.filename.value, Some(|upload.content|))
            && r.body.error == Some(result.Error()))
      && (result.Succeeded() && RepeatedKeywords(result.Metadata()) != {} ==>
            && r.body.metadata == FailureMetadata(upload.filename.value, None)
            && r.body.error == Some("Internal server error: " + ext.describe(DuplicateKeyword(RepeatedKeywords(result.Metadata())))))
    ensures r.Ok? ==>
      var result := GhidraService.DecompileBinary(upload.filename.value, outcome);
      (r.body.success <==> result.Succeeded() && RepeatedKeywords(result.Metadata()) == {})
    ensures r.Ok? && !r.body.success ==>
      && r.body.assemblyCode == "" && r.body.decompiledCode == ""
      && r.body.error.Some? && r.body.warnings == []
    ensures r.Ok? && r.body.success ==>
      && outcome.Ran?
      && var results := GhidraService.ParseResults(upload.filename.value, outcome.files);
      && r.body.assemblyCode == results.assemblyCode
      && r.body.decompiledCode == results.decompiledCode
      && r.body.error.None?
      && r.body.metadata == BinaryMetadata(
           upload.filename.value, Lookup(results.metadata, "program"), Lookup(results.metadata, "language"),
           Lookup(results.metadata, "compiler"), Lookup(results.metadata, "architecture"),
           Lookup(results.metadata, "address_size"), Some(|upload.content|))
    ensures r.Ok? && r.body.success ==>
      r.body.warnings == if GhidraService.HasSignature(upload.content) then [] else [GhidraService.CautionMessage]
  {
    if upload.filename.None? || upload.filename.value == "" then
      HttpError(400, "Filename is required")
    else
      var name := upload.filename.value;
      if upload.declaredSize.Some? && upload.declaredSize.value > GhidraService.MaxFileSize then
        HttpError(400, "File too large (max 100MB)")
      else
        var (valid, message) := GhidraService.ValidateBinaryFile(GhidraService.Present(upload.content));
        if !valid then HttpError(400, "Invalid binary file: " + message)
        else
          var result := GhidraService.DecompileBinary(name, outcome);
          if !result.Succeeded() then
            Ok(DecompileResponse(
              false, "", "", FailureMetadata(name, Some(|upload.content|)), Some(result.Error()), []))
          else if RepeatedKeywords(result.Metadata()) != {} then
            Ok(DecompileResponse(
              false, "", "", FailureMetadata(name, None),
              Some("Internal server error: " + ext.describe(DuplicateKeyword(RepeatedKeywords(result.Metadata())))), []))
          else
            CautionWarning(upload.content);
            Ok(DecompileResponse(
              true, result.AssemblyCode(), result.DecompiledCode(),
              SuccessMetadata(name, |upload.content|, result.Metadata()).value, None,
              if Text.Contains(message, "caution") then [message] else []))
  }

  /** The validation message mentions "caution" exactly when the file has no recognised signature. */
  lemma CautionWarning(content: seq<GhidraService.byte>)
    requires 0 < |content| <= GhidraService.MaxFileSize
    ensures var message := GhidraService.ValidateBinaryFile(GhidraService.Present(content)).1;
      Text.Contains(message, "caution") <==> !GhidraService.HasSignature(content)
  {
    if GhidraService.HasSignature(content) {
      Text.ContainsHasChar(GhidraService.ValidMessage, "caution", 0);
    } else {
      assert Text.OccursAt(GhidraService.CautionMessage, "caution", 52);
    }
  }

  /**
   * The uploads the source's endpoint tests make: an ELF file whose
   * analysis succeeds without a metadata file, a file declared larger than
   * 100 MiB, and a file without a name.
   */
  lemma DecompileExamples(content: seq<GhidraService.byte>, ext: Externals)
    requires 0 < |content| <= 1000
    ensures var elf: seq<GhidraService.byte> := [0x7f, 0x45, 0x4c, 0x46, 0x01, 0x01, 0x01, 0x00];
      var files := GhidraService.OutputFiles(Some("test assembly"), Some("test C code"), None);
      Decompile(Upload(Some("test.bin"), None, elf), GhidraService.Ran(GhidraService.Exited(0, "", ""), files), ext)
      == Ok(DecompileResponse(true, "test assembly", "test C code",
                              BinaryMetadata("test.bin", None, None, None, None, None, Some(8)), None, []))
    ensures forall outcome: GhidraService.DecompileOutcome ::
      Decompile(Upload(Some("large.bin"), Some(101 * 1024 * 1024), content), outcome, ext)
      == HttpError(400, "File too large (max 100MB)")
    ensures forall outcome: GhidraService.DecompileOutcome ::
      Decompile(Upload(Some(""), None, content), outcome, ext) == HttpError(400, "Filename is required")
  {
    var elf: seq<GhidraService.byte> := [0x7f, 0x45, 0x4c, 0x46, 0x01, 0x01, 0x01, 0x00];
    assert GhidraService.HasSignature(elf) by {
      assert GhidraService.StartsWith(GhidraService.Magic(elf), GhidraService.Signatures[0]);
    }
  }
}
