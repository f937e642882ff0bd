/**
 * The records of `api/schemas.py` and what constructing one from keyword
 * arguments does. Construction follows pydantic (version 2, lax mode):
 * a required field must be supplied, an optional one defaults, keyword
 * arguments that name no field are ignored, and a value of the wrong type
 * makes the whole construction fail.
 */
module Schemas {
  import opened Wrappers
  import opened JsonValues

  /** `RiskLevel`, a string enum. */
  datatype RiskLevel = Critical | High | Medium | Low {
    /** The member's string value. */
    function Value(): string {
      match this
      case Critical => "critical"
      case High => "high"
      case Medium => "medium"
      case Low => "low"
    }
  }

  /** `RiskLevel(v)`: the member whose value is exactly `v`, if there is one. */
  function RiskLevelByValue(v: string): (r: Option<RiskLevel>)
    ensures r.Some? ==> r.value.Value() == v
    ensures r.None? ==> forall l: RiskLevel :: l.Value() != v
  {
    if v == "critical" then Some(Critical)
    else if v == "high" then Some(High)
    else if v == "medium" then Some(Medium)
    else if v == "low" then Some(Low)
    else None
  }

  /** The enum has exactly four members, with four distinct values. */
  lemma RiskLevelHasFourValues()
    ensures forall l: RiskLevel :: l.Value() in {"critical", "high", "medium", "low"}
    ensures forall a: RiskLevel, b: RiskLevel :: a.Value() == b.Value() ==> a == b
    ensures |{Critical, High, Medium, Low}| == 4
  {
  }

  /** `OpenAIModel`, a string enum. */
  datatype OpenAIModel = Gpt4 | Gpt4Turbo | Gpt35Turbo {
    function Value(): string {
      match this
      case Gpt4 => "gpt-4"
      case Gpt4Turbo => "gpt-4-turbo"
      case Gpt35Turbo => "gpt-3.5-turbo"
    }
  }

  /** `OpenAIRequest`; the sampling temperature (a float) is not modelled. */
  datatype OpenAIRequest = OpenAIRequest(text: string, model: OpenAIModel, maxTokens: Option<int>)

  /** `SecurityFinding`: every field is required. */
  datatype SecurityFinding = SecurityFinding(
    kind: string,
    severity: RiskLevel,
    location: string,
    description: string,
    codeSnippet: string,
    recommendation: string)

  /** `CodeDifference`: the change type is any string, not an enum. */
  datatype CodeDifference = CodeDifference(
    lineNumber: int,
    changeType: string,
    oldContent: Option<string>,
    newContent: Option<string>,
    context: string)

  /** `SpecificationDifference`. */
  datatype SpecificationDifference = SpecificationDifference(
    section: string,
    changeType: string,
    oldContent: Option<string>,
    newContent: Option<string>,
    description: string)

  /** `SpecificationFeature`. */
  datatype SpecificationFeature = SpecificationFeature(feature: string, description: string, impact: string)

  /** `SpecificationBehaviorChange`. */
  datatype SpecificationBehaviorChange = SpecificationBehaviorChange(
    change: string,
    oldBehavior: string,
    newBehavior: string,
    securityImpact: string)

  /** `ComplianceMismatch`: the spec reference is optional. */
  datatype ComplianceMismatch = ComplianceMismatch(
    kind: string,
    description: string,
    codeReference: string,
    specReference: Option<string>,
    severity: string)

  /** `ComplianceMatch`: the spec reference is required. */
  datatype ComplianceMatch = ComplianceMatch(description: string, codeReference: string, specReference: string)

  /** `BinaryMetadata`; the analysis time (a float) is not modelled. */
  datatype BinaryMetadata = BinaryMetadata(
    filename: string,
    program: Option<string>,
    language: Option<string>,
    compiler: Option<string>,
    architecture: Option<string>,
    addressSize: Option<string>,
    fileSize: Option<int>)

  /** `DecompileResponse`. */
  datatype DecompileResponse = DecompileResponse(
    success: bool,
    assemblyCode: string,
    decompiledCode: string,
    metadata: BinaryMetadata,
    error: Option<string>,
    warnings: seq<string>)

  /** Keyword arguments handed to a record constructor. */
  type Kwargs = map<string, Json>

  // ---------------------------------------------------------------------
  // Field validation
  // ---------------------------------------------------------------------

  /** A required `str` field: supplied, and a string (numbers are not turned into strings). */
  function StrField(kw: Kwargs, name: string): Option<string> {
    if name in kw && kw[name].JStr? then Some(kw[name].s) else None
  }

  /** An `Optional[str]` field defaulting to `None`: the outer `None` means the value is invalid. */
  function OptStrField(kw: Kwargs, name: string): Option<Option<string>> {
    if name !in kw then Some(None)
    else
      match kw[name]
      case JNull => Some(None)
      case JStr(s) => Some(Some(s))
      case _ => None
  }

  predicate IsDigit(c: char) {
    '0' <= c <= '9'
  }

  predicate AllDigits(s: string) {
    forall i | 0 <= i < |s| :: IsDigit(s[i])
  }

  /** The value of a string of decimal digits, most significant first. */
  function DigitsValue(s: string): nat
    requires AllDigits(s)
  {
    if |s| == 0 then 0
    else DigitsValue(s[..|s| - 1]) * 10 + (s[|s| - 1] as int - '0' as int)
  }

  /** Integer text: an optional sign followed by at least one decimal digit. */
  predicate IsIntegerText(s: string) {
    || (|s| > 0 && AllDigits(s))
    || (|s| > 1 && (s[0] == '-' || s[0] == '+') && AllDigits(s[1..]))
  }

  /** The integer an integer text denotes; anything else is rejected. */
  function ParseInteger(s: string): (r: Option<int>)
    ensures r.Some? <==> IsIntegerText(s)
    ensures |s| > 0 && AllDigits(s) ==> r == Some(DigitsValue(s))
    ensures |s| > 1 && s[0] == '+' && AllDigits(s[1..]) ==> r == Some(DigitsValue(s[1..]))
    ensures |s| > 1 && s[0] == '-' && AllDigits(s[1..]) ==> r == Some(-(DigitsValue(s[1..]) as int))
  {
    if |s| > 0 && (s[0] == '-' || s[0] == '+') then
      var d := s[1..];
      if |d| > 0 && AllDigits(d) then
        Some(if s[0] == '-' then -(DigitsValue(d) as int) else DigitsValue(d))
      else None
    else if |s| > 0 && AllDigits(s) then Some(DigitsValue(s))
    else None
  }

  /** Python's `str(n)` for a natural number. */
  function NatText(n: nat): (r: string)
    ensures |r| > 0 && AllDigits(r)
  {
    if n < 10 then [('0' as int + n) as char]
    else NatText(n / 10) + [('0' as int + n % 10) as char]
  }

  /** Python's `str(n)` for an integer. */
  function IntText(n: int): string {
    if n < 0 then "-" + NatText(-n) else NatText(n)
  }

  /** Reading back the decimal text of a natural number gives the number. */
  lemma {:induction false} DigitsValueOfNatText(n: nat)
    ensures DigitsValue(NatText(n)) == n
  {
    if n >= 10 {
      var t := NatText(n);
      assert t[..|t| - 1] == NatText(n / 10);
      DigitsValueOfNatText(n / 10);
    }
  }

  /** Integer text round-trips: `int(str(n)) == n`. */
  lemma ParseIntegerOfIntText(n: int)
    ensures ParseInteger(IntText(n)) == Some(n)
  {
    if n < 0 {
      DigitsValueOfNatText(-n);
      assert IntText(n)[1..] == NatText(-n);
    } else {
      DigitsValueOfNatText(n);
    }
  }

  /**
   * Lax coercion of one value to `int`: an integral number, a boolean, or
   * integer text; anything else (a fraction, `None`, a list, ...) is invalid.
   */
  function AsInt(v: Json): Option<int> {
    match v
    case JNum(n) => if n.Floor as real == n then Some(n.Floor) else None
    case JBool(b) => Some(if b then 1 else 0)
    case JStr(s) => ParseInteger(s)
    case _ => None
  }

  /** A required `int` field. */
  function IntField(kw: Kwargs, name: string): Option<int> {
    if name in kw then AsInt(kw[name]) else None
  }

  /** An `Optional[int]` field with the given default. */
  function OptIntField(kw: Kwargs, name: string, default: Option<int>): Option<Option<int>> {
    if name !in kw then Some(default)
    else if kw[name].JNull? then Some(None)
    else
      var n :- AsInt(kw[name]);
      Some(Some(n))
  }

  // ---------------------------------------------------------------------
  // Record construction
  // ---------------------------------------------------------------------

  /** `OpenAIRequest(**kw)`: `text` is required, `model` defaults to gpt-4, `max_tokens` to 1000 and must be positive. */
  function ValidateOpenAIRequest(kw: Kwargs): (r: Option<OpenAIRequest>)
    ensures r.Some? && r.value.maxTokens.Some? ==> r.value.maxTokens.value > 0
    ensures r.Some? && "max_tokens" !in kw ==> r.value.maxTokens == Some(1000)
    ensures r.Some? && "model" !in kw ==> r.value.model == Gpt4
    ensures "text" !in kw ==> r.None?
    ensures "max_tokens" in kw && AsInt(kw["max_tokens"]).Some? && AsInt(kw["max_tokens"]).value <= 0 ==> r.None?
  {
    var text :- StrField(kw, "text");
    var model :-
      if "model" !in kw then Some(Gpt4)
      else match kw["model"]
        case JStr(v) =>
          if v == Gpt4.Value() then Some(Gpt4)
          else if v == Gpt4Turbo.Value() then Some(Gpt4Turbo)
          else if v == Gpt35Turbo.Value() then Some(Gpt35Turbo)
          else None
        case _ => None;
    var maxTokens :- OptIntField(kw, "max_tokens", Some(1000));
    if maxTokens.Some? && maxTokens.value <= 0 then None
    else Some(OpenAIRequest(text, model, maxTokens))
  }

  /** The names of `SecurityFinding`'s fields, all of them required. */
  const SecurityFindingFields: set<string> :=
    {"type", "severity", "location", "description", "code_snippet", "recommendation"}

  /** `SecurityFinding(**kw)`: the severity must be the value of a `RiskLevel`. */
  function ValidateSecurityFinding(kw: Kwargs): (r: Option<SecurityFinding>)
    ensures r.Some? ==> "severity" in kw && kw["severity"] == JStr(r.value.severity.Value())
    ensures (exists f | f in SecurityFindingFields :: f !in kw) ==> r.None?
  {
    var kind :- StrField(kw, "type");
    var severityText :- StrField(kw, "severity");
    var severity :- RiskLevelByValue(severityText);
    var location :- StrField(kw, "location");
    var description :- StrField(kw, "description");
    var snippet :- StrField(kw, "code_snippet");
    var recommendation :- StrField(kw, "recommendation");
    Some(SecurityFinding(kind, severity, location, description, snippet, recommendation))
  }

  /** `CodeDifference(**kw)`. */
  function ValidateCodeDifference(kw: Kwargs): Option<CodeDifference> {
    var line :- IntField(kw, "line_number");
    var changeType :- StrField(kw, "change_type");
    var oldContent :- OptStrField(kw, "old_content");
    var newContent :- OptStrField(kw, "new_content");
    var context :- StrField(kw, "context");
    Some(CodeDifference(line, changeType, oldContent, newContent, context))
  }

  /**
   * `line_number`, `change_type` and `context` are required; the two contents
   * are optional and default to `None`.
   */
  lemma CodeDifferenceFields(kw: Kwargs, line: int, changeType: string, context: string)
    ensures "line_number" !in kw || "change_type" !in kw || "context" !in kw ==> ValidateCodeDifference(kw).None?
    ensures ValidateCodeDifference(map["line_number" := JNum(line as real), "change_type" := JStr(changeType), "context" := JStr(context)])
         == Some(CodeDifference(line, changeType, None, None, context))
  {
    assert (line as real).Floor == line;
  }

  /** Any string is accepted as a change type: it is not checked against added/removed/modified. */
  lemma CodeDifferenceChangeTypeIsFree(kw: Kwargs, t: string)
    requires ValidateCodeDifference(kw).Some?
    ensures ValidateCodeDifference(kw["change_type" := JStr(t)]) == Some(ValidateCodeDifference(kw).value.(changeType := t))
  {
  }

  /** `SpecificationDifference(**kw)`. */
  function ValidateSpecificationDifference(kw: Kwargs): Option<SpecificationDifference> {
    var section :- StrField(kw, "section");
    var changeType :- StrField(kw, "change_type");
    var oldContent :- OptStrField(kw, "old_content");
    var newContent :- OptStrField(kw, "new_content");
    var description :- StrField(kw, "description");
    Some(SpecificationDifference(section, changeType, oldContent, newContent, description))
  }

  /** `SpecificationFeature(**kw)`. */
  function ValidateSpecificationFeature(kw: Kwargs): Option<SpecificationFeature> {
    var feature :- StrField(kw, "feature");
    var description :- StrField(kw, "description");
    var impact :- StrField(kw, "impact");
    Some(SpecificationFeature(feature, description, impact))
  }

  /** `SpecificationBehaviorChange(**kw)`. */
  function ValidateSpecificationBehaviorChange(kw: Kwargs): Option<SpecificationBehaviorChange> {
    var change :- StrField(kw, "change");
    var oldBehavior :- StrField(kw, "old_behavior");
    var newBehavior :- StrField(kw, "new_behavior");
    var securityImpact :- StrField(kw, "security_impact");
    Some(SpecificationBehaviorChange(change, oldBehavior, newBehavior, securityImpact))
  }

  /** `ComplianceMismatch(**kw)`. */
  function ValidateComplianceMismatch(kw: Kwargs): Option<ComplianceMismatch> {
    var kind :- StrField(kw, "type");
    var description :- StrField(kw, "description");
    var codeReference :- StrField(kw, "code_reference");
    var specReference :- OptStrField(kw, "spec_reference");
    var severity :- StrField(kw, "severity");
    Some(ComplianceMismatch(kind, description, codeReference, specReference, severity))
  }

  /** `ComplianceMatch(**kw)`. */
  function ValidateComplianceMatch(kw: Kwargs): Option<ComplianceMatch> {
    var description :- StrField(kw, "description");
    var codeReference :- StrField(kw, "code_reference");
    var specReference :- StrField(kw, "spec_reference");
    Some(ComplianceMatch(description, codeReference, specReference))
  }

  /**
   * A mismatch may omit its spec reference (it becomes `None`); a match may
   * not. Keyword arguments that name no field are ignored.
   */
  lemma SpecReferenceOptionality(kw: Kwargs, extra: string, v: Json)
    ensures "spec_reference" !in kw ==> ValidateComplianceMatch(kw).None?
    ensures "spec_reference" !in kw && ValidateComplianceMismatch(kw).Some? ==>
      ValidateComplianceMismatch(kw).value.specReference.None?
    ensures extra !in {"type", "description", "code_reference", "spec_reference", "severity"} ==>
      ValidateComplianceMismatch(kw[extra := v]) == ValidateComplianceMismatch(kw)
  {
  }

  /** `BinaryMetadata(**kw)`: only `filename` is required. */
  function ValidateBinaryMetadata(kw: Kwargs): (r: Option<BinaryMetadata>)
    ensures "filename" !in kw ==> r.None?
    ensures forall f :: kw == map["filename" := JStr(f)] ==>
      r == Some(BinaryMetadata(f, None, None, None, None, None, None))
  {
    var filename :- StrField(kw, "filename");
    var program :- OptStrField(kw, "program");
    var language :- OptStrField(kw, "language");
    var compiler :- OptStrField(kw, "compiler");
    var architecture :- OptStrField(kw, "architecture");
    var addressSize :- OptStrField(kw, "address_size");
    var fileSize :- OptIntField(kw, "file_size", None);
    Some(BinaryMetadata(filename, program, language, compiler, architecture, addressSize, fileSize))
  }
}
