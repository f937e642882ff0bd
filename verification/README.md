# spectrace: a Dafny model of the analysis glue

spectrace is a web service with three jobs:

- it decompiles an uploaded binary with Ghidra's headless analyzer;
- it asks a language-model service to compare two versions of code or of a specification;
- it asks the same service whether code changes comply with specification changes.

This project models the deterministic parts of that service. Each one is a pure function:

- the request records and how constructing them validates keyword arguments (`Schemas`);
- how a reasoning-service reply is sliced, decoded and turned into records (`LlmReply`);
- the three analyzers (`CodeAnalyzer`, `SpecAnalyzer`, `ComplianceAnalyzer`);
- the binary validator, the result parser and the decompilation pipeline (`GhidraService`);
- the Ghidra error classifier (`ErrorHandler`);
- the four HTTP routes, as a status code and detail or a response body (`CodeRoutes`).

Python's string built-ins that the service relies on are modelled in `Text`:

- `strip` uses the exact `str.isspace` set;
- `lower` covers ASCII plus the Kelvin sign;
- also `find`, `rfind`, `split` and `splitlines`.

The model treats the following as parameters, not as code it looks inside:

- `json.loads` and `float()` of a string;
- the text of a Python exception;
- the language-model reply;
- the outcome of the Ghidra subprocess and the files it writes.

Construction of a record follows pydantic 2 in lax mode:

- missing required fields fail;
- optional fields default;
- unknown keywords are ignored;
- a value of the wrong type makes the whole construction fail.

An analyzer's `_make_*` loop skips an entry whose construction fails.

## Model

| member | source | states |
|---|---|---|
| Schemas.RiskLevelByValue | api/schemas.py:37-42 | `RiskLevel(v)` yields the member whose value is `v`, and there is none exactly when no member has that value |
| Schemas.RiskLevelHasFourValues | api/schemas.py:37-42 | the enum has four members with the four distinct values critical, high, medium, low |
| Schemas.ValidateOpenAIRequest | api/schemas.py:19-24 | `text` is required, `model` defaults to gpt-4, `max_tokens` defaults to 1000 and must be positive |
| Schemas.ValidateSecurityFinding | api/schemas.py:47-54 | every field is required, and the severity must be the value of a risk level |
| Schemas.CodeDifferenceFields | api/schemas.py:57-63 | line number, change type and context are required; the two contents default to None |
| Schemas.CodeDifferenceChangeTypeIsFree | api/schemas.py:57-63 | any string is accepted as a change type; it is not checked against added/removed/modified |
| Schemas.SpecReferenceOptionality | api/schemas.py:137-150 | a mismatch may omit its spec reference, a match may not, and unknown keywords change nothing |
| Schemas.ValidateBinaryMetadata | api/schemas.py:174-183 | only `filename` is required; given only a filename, every other field is None |
| Schemas.ParseInteger | api/schemas.py:59 | integer text is accepted exactly when it is a run of decimal digits, optionally after one `+` or `-`; its value is the digits' value, negated after `-` |
| Schemas.ParseIntegerOfIntText | api/schemas.py:59 | the decimal text of any integer parses back to that integer |
| Schemas.NatText | api/schemas.py:59 | the decimal text of a natural is a non-empty run of digits |
| Schemas.DigitsValueOfNatText | api/schemas.py:59 | reading the digits back gives the number |
| Text.TrimStart | api/routes/code_routes.py:181 | the result is a suffix of the input; what was removed is blank; the result does not start with whitespace |
| Text.TrimEnd | api/routes/code_routes.py:181 | the result is a prefix of the input; what was removed is blank; the result does not end with whitespace |
| Text.Strip | api/routes/code_routes.py:181 | the result is no longer than the input and starts and ends with a non-space |
| Text.StripIsInfix | api/routes/code_routes.py:181 | the stripped text is a slice of the input with blank text on both sides |
| Text.StripChars | api/routes/code_routes.py:181 | stripping introduces no characters |
| Text.TrimStartBlank | api/routes/code_routes.py:181 | trimming the start keeps a text blank exactly when it was blank |
| Text.TrimEndEmptyIffBlank | api/routes/code_routes.py:181 | trimming the end empties a text exactly when it is blank |
| Text.StripEmptyIffBlank | api/routes/code_routes.py:181 | `not s.strip()` holds exactly when every character is whitespace |
| Text.LowerOfUpper | api/services/code_analyzer.py:174 | lower-casing an upper-cased text equals lower-casing the text |
| Text.LowerIdempotent | api/services/code_analyzer.py:174 | lower-casing twice is lower-casing once |
| Text.ContainsHasChar | api/routes/code_routes.py:118 | a text containing a substring contains each of its characters |
| Text.Find | api/services/code_analyzer.py:109 | -1 exactly when the character is absent, else the index of its first occurrence |
| Text.RFind | api/services/code_analyzer.py:110 | -1 exactly when the character is absent, else the index of its last occurrence |
| Text.FindFirst | api/services/code_analyzer.py:109 | an occurrence with none before it is what `find` returns |
| Text.Split | api/services/ghidra_service.py:278 | at least one piece, no piece contains the separator, and joining the pieces with it gives the text back |
| Text.SplitStep | api/services/ghidra_service.py:278 | a first piece before the first separator, followed by a split of the rest, is a valid split of the whole |
| Text.SplitUnique | api/services/ghidra_service.py:278 | splitting pieces joined by a separator they lack gives the pieces back |
| Text.SplitPiecesFromText | api/services/ghidra_service.py:278 | every character of a piece occurs in the text |
| Text.SplitOnce | api/services/ghidra_service.py:280 | the text is the head, the separator and the tail, and the head lacks the separator |
| Text.SplitOnceUnique | api/services/ghidra_service.py:280 | any head without the separator, the separator and a tail is split back into exactly that head and tail |
| Text.NextLineStart | api/services/code_analyzer.py:71-72 | the next line starts after at least one character, and a text without line boundaries is one line |
| Text.LineCount | api/services/code_analyzer.py:71-72 | `len(s.splitlines())` is at most the length, is zero exactly for the empty text, and is one for a non-empty text without boundaries |
| Text.NextLineStartAfter | api/services/code_analyzer.py:71-72 | after a line without boundaries and one line ending, the next line starts right after the ending; a lone `\r` followed by `\n` is one ending, not two |
| Text.TerminatedStart | api/services/code_analyzer.py:71-72 | lines joined by an ending other than `\n` never start with `\n` |
| Text.LineCountOfLines | api/services/code_analyzer.py:71-72 | a text built from lines, each closed by the same line ending, and an optional unterminated last line has exactly that many lines |
| LlmReply.DecoderInput | api/services/code_analyzer.py:109-117 | the decoder gets the slice from the first `{` through the last `}` when such a span exists, else the whole text |
| LlmReply.BracedSpanBounds | api/services/code_analyzer.py:109-112 | a braced span exists exactly when the first `{` comes before the last `}` |
| LlmReply.ConvertAll | api/services/code_analyzer.py:130-144 | the loop outputs no more records than entries, and each record is the conversion of some entry |
| LlmReply.ConvertAllAppend | api/services/code_analyzer.py:128-144 | conversion distributes over concatenation, so order is kept and entries are independent |
| LlmReply.ConvertAllSingle | api/services/code_analyzer.py:133-142 | one entry is kept exactly when its construction succeeds |
| LlmReply.ConvertAllKeepsGood | api/services/code_analyzer.py:132-144 | when every entry converts, the output is their conversions one for one |
| LlmReply.ConvertAllDropsBad | api/services/code_analyzer.py:141-142 | when no entry converts, the output is empty |
| LlmReply.ConvertEntriesShape | api/services/code_analyzer.py:132 | whether iterating a response value fails depends only on its shape, not on the record type |
| LlmReply.ConvertEntriesReads | api/services/code_analyzer.py:132-144 | iterating a response value succeeds exactly for a list, a string or a dictionary; a list gives its converted entries, the others nothing, and anything else raises `NotIterable` |
| LlmReply.StringsOf | api/services/code_analyzer.py:86 | a value is a valid list of strings exactly when every entry is a string, and then the list is those strings in order |
| CodeAnalyzer.ParseRisk | api/services/code_analyzer.py:166-174 | the level whose value is the lower-cased text, and LOW when there is none |
| CodeAnalyzer.ParseRiskOfValue | api/services/code_analyzer.py:166-174 | parsing a level's own value gives that level back |
| CodeAnalyzer.ParseRiskIgnoresCase | api/services/code_analyzer.py:174 | parsing ignores letter case |
| CodeAnalyzer.ParseRiskExamples | api/tests/test_compare_code.py:142-151 | the five cases of the test suite, including "unknown" giving LOW |
| CodeAnalyzer.MakeDifference | api/services/code_analyzer.py:128-144 | non-objects are skipped; line 1, "modified" and "" are the defaults; the description becomes the context |
| CodeAnalyzer.MakeDifferenceDefaults | api/services/code_analyzer.py:134-140 | an empty object becomes a difference made of defaults only |
| CodeAnalyzer.MakeFinding | api/services/code_analyzer.py:146-164 | non-objects are skipped; the severity goes through `_parse_risk` and defaults to LOW; a non-string severity skips the entry |
| CodeAnalyzer.StringEntriesAreSkipped | api/services/code_analyzer.py:132-142 | strings met while iterating are never converted |
| CodeAnalyzer.CompareCodes | api/services/code_analyzer.py:29-99 | a success carries the request's line counts and its list counts; a failure has the error metadata and the exception text; a failed reply gives "OpenAI failed: ..." |
| CodeAnalyzer.BuildReadsFields | api/services/code_analyzer.py:65-88 | a decoded dictionary builds a response exactly when its lists are iterable, its risk a string, its summary a dictionary and its recommendations strings; then the differences and findings are the conversions of its lists, the risk is `_parse_risk` of its text, and the summary and recommendations are its own |
| CodeAnalyzer.CompareCodesReadsReply | api/services/code_analyzer.py:62-88 | for a reply that decodes to a dictionary, the comparison succeeds exactly when that dictionary is readable, and then holds what it says |
| CodeAnalyzer.NonObjectReply | api/services/code_analyzer.py:65 | a reply that decodes to something other than a dictionary gives a failure whose error is the text of the missing `get` |
| CodeAnalyzer.UndecodableReply | api/services/code_analyzer.py:105-126 | an undecodable reply gives a successful empty comparison with risk LOW and the single "Could not parse" recommendation |
| CodeAnalyzer.FallbackBuild | api/services/code_analyzer.py:118-126 | the fallback dictionary builds exactly that response |
| CodeAnalyzer.MissingRiskIsLow | api/services/code_analyzer.py:67 | without a risk assessment in the reply, the overall risk is LOW |
| SpecAnalyzer.MakeDifference | api/services/spec_analyzer.py:130-146 | non-objects are skipped; "unknown", "modified", "" and None are the defaults; a non-string section skips the entry |
| SpecAnalyzer.MakeFeature | api/services/spec_analyzer.py:148-162 | non-objects are skipped; "unknown" and "" are the defaults; the feature name is kept |
| SpecAnalyzer.MakeBehaviorChange | api/services/spec_analyzer.py:164-179 | non-objects are skipped; "unknown" and "" are the defaults; the change text is kept |
| SpecAnalyzer.EntriesOfStringsConvert | api/services/spec_analyzer.py:130-179 | default-only entries, and all-string feature entries, always convert |
| SpecAnalyzer.NonStringImpactIsSkipped | api/services/spec_analyzer.py:148-162 | a feature whose impact is not a string is skipped |
| SpecAnalyzer.CompareSpecs | api/services/spec_analyzer.py:28-100 | the success metadata holds the request's text lengths and the list counts; a failure has the error metadata and the exception text |
| SpecAnalyzer.BuildReadsFields | api/services/spec_analyzer.py:63-88 | a decoded dictionary builds a response exactly when its four lists are iterable, its summary a dictionary and its recommendations strings; then the differences, features and behavioral changes are the conversions of its lists, and the summary and recommendations are its own |
| SpecAnalyzer.CompareSpecsReadsReply | api/services/spec_analyzer.py:60-88 | for a reply that decodes to a dictionary, the comparison succeeds exactly when that dictionary is readable, and then holds what it says |
| SpecAnalyzer.NonObjectReply | api/services/spec_analyzer.py:63 | a reply that decodes to something other than a dictionary gives a failure whose error is the text of the missing `get` |
| SpecAnalyzer.UndecodableReply | api/services/spec_analyzer.py:106-128 | an undecodable reply gives a successful empty comparison with the "Could not parse" recommendation |
| SpecAnalyzer.FallbackBuild | api/services/spec_analyzer.py:119-128 | the fallback dictionary builds exactly that response |
| SpecAnalyzer.FeatureListsFromReply | api/services/spec_analyzer.py:64-65 | in a successful comparison, the added and removed features are the conversions of the reply's two lists |
| SpecAnalyzer.BuildFeatures | api/services/spec_analyzer.py:64-65 | when the decoded dictionary builds a response, its added and removed features are the conversions of the dictionary's two lists |
| ComplianceAnalyzer.MakeMismatch | api/services/compliance_analyzer.py:131-147 | non-objects are skipped; "unknown", "" and "medium" are the defaults; the spec reference is always None |
| ComplianceAnalyzer.MismatchLosesDocReference | api/services/compliance_analyzer.py:141 | a mismatch that names its specification section still loses the reference |
| ComplianceAnalyzer.MakeMatch | api/services/compliance_analyzer.py:149-163 | construction always fails, because the required `spec_reference` is never passed |
| ComplianceAnalyzer.MakeMismatchFixed | api/services/compliance_analyzer.py:131-147 | with the keyword corrected, a mismatch's spec reference is its `doc_reference` when there is one |
| ComplianceAnalyzer.MakeMatchFixed | api/services/compliance_analyzer.py:149-163 | with the keyword corrected, a match's spec reference is its `doc_reference`, defaulting to "" |
| ComplianceAnalyzer.FixedEntriesKeepReferences | api/services/compliance_analyzer.py:141-158 | the corrected conversions keep the references they are given |
| ComplianceAnalyzer.ScoreOf | api/services/compliance_analyzer.py:69 | `float(v)` of a number is itself, of a bool is 0 or 1, of a string is what parsing gives; anything else raises |
| ComplianceAnalyzer.ChangesCount | api/services/compliance_analyzer.py:72-78 | a missing list counts 0, a list counts its length, a value without a length raises |
| ComplianceAnalyzer.Validate | api/services/compliance_analyzer.py:27-101 | a success has the score and the counts of both analyses; a failure has the error metadata and the exception text |
| ComplianceAnalyzer.BuildReadsFields | api/services/compliance_analyzer.py:66-89 | a decoded dictionary builds a response exactly when its lists are iterable, its score converts by `float`, both analyses' counts exist, its status is a string, its summary a dictionary and its recommendations strings; then the status defaults to "unknown", the score to 0.0, and the mismatches and matches are the conversions of its lists |
| ComplianceAnalyzer.ValidateReadsReply | api/services/compliance_analyzer.py:63-89 | for a reply that decodes to a dictionary, the validation succeeds exactly when that dictionary is readable, and then holds what it says |
| ComplianceAnalyzer.NonObjectReply | api/services/compliance_analyzer.py:66 | a reply that decodes to something other than a dictionary gives a failure whose error is the text of the missing `get` |
| ComplianceAnalyzer.ValidateCompliance | api/services/compliance_analyzer.py:27-101 | as written, a result never holds a match, and no mismatch holds a spec reference |
| ComplianceAnalyzer.MatchesNeverConvert | api/services/compliance_analyzer.py:155-158 | for every reply, the as-written analysis drops every match and every mismatch reference |
| ComplianceAnalyzer.ValidateComplianceFixed | api/services/compliance_analyzer.py:27-101 | the corrected analysis succeeds exactly when the original does, and otherwise agrees with it |
| ComplianceAnalyzer.MatchShapedConverts | api/services/compliance_analyzer.py:149-163 | with the keyword corrected, an object whose three fields are strings or absent always becomes a match carrying them |
| ComplianceAnalyzer.ShapedMatchesConvert | api/services/compliance_analyzer.py:149-163 | with the keyword corrected, a list of such objects becomes one match per entry, in order, with its description and reference |
| ComplianceAnalyzer.FixedKeepsMatches | api/services/compliance_analyzer.py:63-89 | a successful corrected validation of a reply whose matches are such objects holds one match per entry, with its description and reference |
| ComplianceAnalyzer.FixKeepsOutcome | api/services/compliance_analyzer.py:27-101 | correcting the keyword changes neither success nor the status, score, summary and recommendations, and a failure is unchanged |
| ComplianceAnalyzer.AnalyseKeepsOutcome | api/services/compliance_analyzer.py:37-89 | the same, up to the `except` branch |
| ComplianceAnalyzer.BuildKeepsOutcome | api/services/compliance_analyzer.py:65-89 | the same, for the decoded dictionary |
| ComplianceAnalyzer.UndecodableReply | api/services/compliance_analyzer.py:107-129 | an undecodable reply gives a successful empty validation with status "error" and score 0 |
| ComplianceAnalyzer.FallbackBuild | api/services/compliance_analyzer.py:120-129 | the fallback dictionary builds exactly that response |
| ErrorHandler.Classify | api/middleware/error_handler.py:62-108 | the rule chosen applies to the text, and no earlier rule does |
| ErrorHandler.HandleGhidraError | api/middleware/error_handler.py:48-118 | never a success; a matching rule gives its fixed texts; otherwise "<context> failed" and a message naming the lower-cased context |
| ErrorHandler.HandlingIgnoresCase | api/middleware/error_handler.py:59 | the report does not depend on the error text's letter case |
| ErrorHandler.JavaNotFoundExample | api/middleware/error_handler.py:62-68 | "Java not found" is reported as a missing Java runtime |
| ErrorHandler.JavaHeapExample | api/middleware/error_handler.py:94-100 | "Java heap space" is reported as insufficient memory, not as a Java problem |
| ErrorHandler.HeapIsOutOfMemory | api/middleware/error_handler.py:94 | "heap" is the first rule that lower-cased text meets |
| ErrorHandler.JavaCrashExample | api/middleware/error_handler.py:110-118 | a Java error that no rule matches gets the generic report naming its context |
| ErrorHandler.CrashIsGeneric | api/middleware/error_handler.py:62-108 | no rule matches "java crashed" |
| GhidraService.AnyPrefix | api/services/ghidra_service.py:323 | true exactly when some signature is a prefix of the magic bytes |
| GhidraService.ValidateBinaryFile | api/services/ghidra_service.py:289-333 | missing, empty and oversize files are rejected with their messages; others are accepted, as valid exactly when a signature matches, else with the caution message |
| GhidraService.ValidationExamples | api/tests/test_ghidra_integration.py:22-82 | ELF and PE headers are valid; an empty file and a missing file are rejected |
| GhidraService.RunGhidraAnalysis | api/services/ghidra_service.py:198-249 | success exactly for exit code 0; the outputs are passed on; a timeout and a launch failure have their messages |
| GhidraService.LineKey | api/services/ghidra_service.py:280-281 | the key is the text before the first colon, stripped, lower-cased and with spaces turned into underscores; it has no spaces and no upper-case ASCII letters |
| GhidraService.LineEntry | api/services/ghidra_service.py:279-281 | a line gives an entry exactly when it contains a colon; the entry is the normalised text before the first colon and the stripped text after it |
| GhidraService.Entries | api/services/ghidra_service.py:278-281 | at most one entry per line |
| GhidraService.NoEntries | api/services/ghidra_service.py:278-281 | lines without entries give none |
| GhidraService.EntriesFromLines | api/services/ghidra_service.py:278-281 | every entry comes from some line |
| GhidraService.EntriesAppend | api/services/ghidra_service.py:278-281 | the entries of concatenated lines are the concatenated entries |
| GhidraService.EntriesSingle | api/services/ghidra_service.py:279-281 | a single line with an entry gives that entry |
| GhidraService.EntriesAround | api/services/ghidra_service.py:278-281 | the entries are those before a line, then that line's entry, then those after it |
| GhidraService.Store | api/services/ghidra_service.py:281 | the stored keys are the old keys plus the entries' keys, and untouched keys keep their values |
| GhidraService.LastEntryWins | api/services/ghidra_service.py:281 | the value stored for a key is that of its last entry |
| GhidraService.LastLineWins | api/services/ghidra_service.py:278-281 | a key repeated over several lines takes the value of its last line |
| GhidraService.ParseMetadata | api/services/ghidra_service.py:253-281 | the filename is always present, and kept unless a metadata line overrides it |
| GhidraService.NoColonNoMetadata | api/services/ghidra_service.py:272-281 | a metadata file without a colon adds nothing to the filename |
| GhidraService.ParseResults | api/services/ghidra_service.py:251-287 | missing output files become empty texts, and without a metadata file only the filename is recorded |
| GhidraService.DecompileBinary | api/services/ghidra_service.py:40-98 | success exactly for a zero exit; a failed run reports "Ghidra analysis failed: " and stderr; a setup exception goes through the error handler |
| GhidraService.FailedRunKeepsItsText | api/services/ghidra_service.py:71-78 | a failing run reports stderr as is, not through the error handler |
| CodeRoutes.CheckPair | api/routes/code_routes.py:174-185 | an error exactly when either text is blank; "required" for an empty text, else "empty or whitespace" |
| CodeRoutes.CodeAnswer | api/routes/code_routes.py:187-200 | a successful analysis is returned as is; a failed one becomes a 500 whose detail wraps its error twice |
| CodeRoutes.CompareCode | api/routes/code_routes.py:141-200 | 400 exactly for blank code, with its detail; 200 with the analysis exactly when it succeeds; else 500 |
| CodeRoutes.SpecAnswer | api/routes/code_routes.py:244-257 | a successful analysis is returned as is; a failed one becomes a 500 whose detail wraps its error twice |
| CodeRoutes.CompareSpecs | api/routes/code_routes.py:203-257 | 400 exactly for a blank specification, with its detail; 200 with the analysis exactly when it succeeds; else 500 |
| CodeRoutes.ComplianceAnswer | api/routes/code_routes.py:296-309 | a successful validation is returned as is; a failed one becomes a 500 whose detail wraps its error twice |
| CodeRoutes.ValidateCompliance | api/routes/code_routes.py:260-309 | 400 exactly when either analysis is empty; 200 with the corrected validation exactly when it succeeds; else 500 |
| CodeRoutes.Lookup | api/routes/code_routes.py:102-109 | `dict.get`: present exactly when the key is, with its value |
| CodeRoutes.RepeatedKeywords | api/routes/code_routes.py:102-111 | no keyword is given twice exactly when the metadata names neither file_size nor analysis_time |
| CodeRoutes.SuccessMetadata | api/routes/code_routes.py:102-109 | for metadata that repeats no keyword, the response metadata is the filename, the five Ghidra fields when present, and the upload size |
| CodeRoutes.EntryKeyword | api/routes/code_routes.py:102-109 | each Ghidra field reaches the metadata record unchanged |
| CodeRoutes.Decompile | api/routes/code_routes.py:39-131 | the three 400 gates in order, with "Filename is required", "File too large (max 100MB)" and "Invalid binary file: " and the validator's message; a failed decompilation gives a body with its error and the filename and content length; a repeated keyword gives a body with "Internal server error: " and only the filename; a success carries the parsed results and a caution warning exactly for unsigned files |
| CodeRoutes.CautionWarning | api/routes/code_routes.py:118 | only the caution message contains "caution" |
| CodeRoutes.DecompileExamples | api/tests/test_ghidra_integration.py:137-180 | a valid ELF upload succeeds with its filename and size; an oversize upload and one without a filename get 400 |

## Left out

- The language-model client, its network calls and its prompt texts: the reply is a parameter.
- `json.loads` and `float()` of a string: they are opaque functions, so the model says nothing about JSON syntax or number syntax.
- Floating-point quantities are not modelled: sampling temperature, analysis time, token counts and response times. The compliance score is a `real`.
- The Ghidra subprocess, the Java script it runs, temporary files and directories, and their removal. The run's outcome and the output files are parameters.
- The application entry point, logging and the middleware's request dispatch. Only the Ghidra error classifier is modelled.
- Case mappings for non-ASCII characters, except the Kelvin sign. This is enough for the keywords the service compares against.
- The text of Python exceptions: it comes from an opaque `describe`.
- Schemas.ParseInteger: the whitespace and underscore forms pydantic also accepts in integer strings are not modelled.
- A record rejected by pydantic is reported as an `InvalidResponse` naming one field, where pydantic lists every failing field.
- Iterating a dictionary or a string in a `_make_*` loop is modelled as a loop whose every entry is skipped, which is what happens to the keys or characters it yields.
- The `parse_error` path of `_parse_results` (reading an output file raises): file reading is not modelled.
- The decompile route's temporary-file handling: its exceptions (which depend on a suffix taken from the filename) are not modelled, and neither is the "Error validating file" path of the validator.
- A summary error that is not a string would be rendered by an f-string. The model writes "Unknown error" instead; the analyzers never produce such an error.
- The test at api/tests/test_ghidra_integration.py:111-127 expects "Java runtime not found" for a failing run, but a failing run reports its stderr without the error handler. `GhidraService.FailedRunKeepsItsText` states what the code does.
- ErrorHandler.JavaCrashExample: states the title and suggestion of the generic report, not its message.
- CodeRoutes.Decompile: the declared upload size and the content length are independent inputs, as they are in the route.
- CodeRoutes.ValidateCompliance: the 200 body is the corrected validation, not the one the route at api/routes/code_routes.py:298 returns. The route as written answers with no matches and no mismatch references (`ComplianceAnalyzer.MatchesNeverConvert`); `ComplianceAnalyzer.FixKeepsOutcome` shows every other field, and the status code, agree.
- CodeRoutes.RepeatedKeywords: the metadata keyword `analysis_time` matters only as a possible repeated keyword, since its float value is not modelled.

## Findings

| source | as written | input that shows it | evidently intended | confidence | as-written member | corrected member |
|---|---|---|---|---|---|---|
| api/services/compliance_analyzer.py:141 | a mismatch passes its reference as `doc_reference`, a keyword `ComplianceMismatch` does not have, so it is ignored | an entry `{"doc_reference": "section 2"}` converts with `spec_reference` None | the entry's `doc_reference` becomes the mismatch's `spec_reference` | high, not executed | ComplianceAnalyzer.MismatchLosesDocReference | ComplianceAnalyzer.FixedEntriesKeepReferences |
| api/services/compliance_analyzer.py:155-158 | a match passes `doc_reference` instead of the required `spec_reference`, so construction raises and the loop skips every match | any reply whose `matches` list holds objects gives a response with no matches | each object becomes a `ComplianceMatch` with its reference | high, not executed | ComplianceAnalyzer.MatchesNeverConvert | ComplianceAnalyzer.FixedKeepsMatches |
