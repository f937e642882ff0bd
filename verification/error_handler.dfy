/**
 * `GhidraErrorHandler.handle_ghidra_error` (api/middleware/error_handler.py):
 * an ordered table of case-insensitive substring rules that turns the text
 * of an exception into a report with an error title, a message and a
 * suggestion. The report always says the operation did not succeed.
 */
module ErrorHandler {
  import Text

  /** The report dictionary: `success`, `error`, `message`, `suggestion`. */
  datatype ErrorReport = ErrorReport(success: bool, error: string, message: string, suggestion: string)

  /** The rules of the table, in the order they are tried; `Generic` is the final `else`. */
  datatype Rule = JavaMissing | GhidraMissing | Timeout | PermissionDenied | OutOfMemory | Unsupported | Generic {
    /** The position of the rule in the table. */
    function Rank(): nat {
      match this
      case JavaMissing => 0
      case GhidraMissing => 1
      case Timeout => 2
      case PermissionDenied => 3
      case OutOfMemory => 4
      case Unsupported => 5
      case Generic => 6
    }
  }

  /** The condition under which a rule applies to the lower-cased error text. */
  predicate Applies(rule: Rule, s: string) {
    match rule
    case JavaMissing => Text.Contains(s, "java") && Text.Contains(s, "not found")
    case GhidraMissing => Text.Contains(s, "ghidra") && (Text.Contains(s, "not found") || Text.Contains(s, "no such file"))
    case Timeout => Text.Contains(s, "timeout") || Text.Contains(s, "timed out")
    case PermissionDenied => Text.Contains(s, "permission") || Text.Contains(s, "denied")
    case OutOfMemory => Text.Contains(s, "memory") || Text.Contains(s, "heap")
    case Unsupported => Text.Contains(s, "unsupported") || Text.Contains(s, "unknown format")
    case Generic => true
  }

  /** The rule the `if`/`elif` chain selects for the lower-cased text: the first that applies. */
  function Classify(s: string): (r: Rule)
    ensures Applies(r, s)
    ensures forall q: Rule :: q.Rank() < r.Rank() ==> !Applies(q, s)
  {
    if Text.Contains(s, "java") && Text.Contains(s, "not found") then JavaMissing
    else if Text.Contains(s, "ghidra") && (Text.Contains(s, "not found") || Text.Contains(s, "no such file")) then GhidraMissing
    else if Text.Contains(s, "timeout") || Text.Contains(s, "timed out") then Timeout
    else if Text.Contains(s, "permission") || Text.Contains(s, "denied") then PermissionDenied
    else if Text.Contains(s, "memory") || Text.Contains(s, "heap") then OutOfMemory
    else if Text.Contains(s, "unsupported") || Text.Contains(s, "unknown format") then Unsupported
    else Generic
  }

  /** The `error` title of each specific rule. */
  function Title(rule: Rule): string
    requires rule != Generic
  {
    match rule
    case JavaMissing => "Java runtime not found"
    case GhidraMissing => "Ghidra installation not found"
    case Timeout => "Analysis timeout"
    case PermissionDenied => "Permission denied"
    case OutOfMemory => "Insufficient memory"
    case Unsupported => "Unsupported binary format"
  }

  /** The `message` of each specific rule. */
  function Message(rule: Rule): string
    requires rule != Generic
  {
    match rule
    case JavaMissing =>
      "Java 17+ is required for Ghidra operations. Please ensure Java is installed and JAVA_HOME is set correctly."
    case GhidraMissing =>
      "Ghidra installation directory not found. Please ensure Ghidra is properly installed."
    case Timeout =>
      "Binary analysis took too long and was terminated. This may happen with very large or complex binaries."
    case PermissionDenied =>
      "Insufficient permissions to access required files or directories."
    case OutOfMemory =>
      "Not enough memory available for binary analysis. This can happen with very large binaries."
    case Unsupported =>
      "The uploaded file format is not supported by Ghidra for analysis."
  }

  /** The `suggestion` of each specific rule. */
  function Suggestion(rule: Rule): string
    requires rule != Generic
  {
    match rule
    case JavaMissing => "Install Java 17+ and set JAVA_HOME environment variable"
    case GhidraMissing => "Set GHIDRA_INSTALL_DIR environment variable to your Ghidra installation path"
    case Timeout => "Try with a smaller binary or increase timeout limits"
    case PermissionDenied =>
      "Check file permissions and ensure the application has write access to temporary directories"
    case OutOfMemory => "Try with a smaller binary or increase available memory for the Java process"
    case Unsupported => "Ensure the file is a valid binary (ELF, PE, Mach-O, or raw binary)"
  }

  /**
   * `handle_ghidra_error(error, context)`, given `str(error)`: the report of
   * the first rule that applies to the lower-cased text, or the generic
   * report naming the context and quoting the original text.
   */
  function HandleGhidraError(errorText: string, context: string := "Ghidra operation"): (r: ErrorReport)
    ensures !r.success
    ensures Classify(Text.Lower(errorText)) != Generic ==>
      var rule := Classify(Text.Lower(errorText));
      r == ErrorReport(false, Title(rule), Message(rule), Suggestion(rule))
    ensures Classify(Text.Lower(errorText)) == Generic ==>
      && r.error == context + " failed"
      && r.message == "An error occurred during " + Text.Lower(context) + ": " + errorText
      && r.suggestion == "Please check the binary file and try again"
  {
    var rule := Classify(Text.Lower(errorText));
    if rule != Generic then ErrorReport(false, Title(rule), Message(rule), Suggestion(rule))
    else ErrorReport(false, context + " failed",
      "An error occurred during " + Text.Lower(context) + ": " + errorText,
      "Please check the binary file and try again")
  }

  /**
   * Classification ignores case: upper-casing the error text selects the
   * same rule, and a specific rule gives the very same report.
   */
  lemma HandlingIgnoresCase(errorText: string, context: string)
    ensures Classify(Text.Lower(Text.Upper(errorText))) == Classify(Text.Lower(errorText))
    ensures HandleGhidraError(Text.Upper(errorText), context).error == HandleGhidraError(errorText, context).error
    ensures Classify(Text.Lower(errorText)) != Generic ==>
      HandleGhidraError(Text.Upper(errorText), context) == HandleGhidraError(errorText, context)
  {
    Text.LowerOfUpper(errorText);
  }

  /** "Java not found" is the Java rule's own case. */
  lemma JavaNotFoundExample()
    ensures HandleGhidraError("Java not found").error == "Java runtime not found"
  {
    var s := Text.Lower("Java not found");
    assert s == "java not found";
    assert Text.OccursAt(s, "java", 0) && Text.OccursAt(s, "not found", 5);
    assert Classify(s) == JavaMissing;
  }

  /**
   * The Java rule needs "not found" as well as "java": a Java heap error
   * falls through to the memory rule.
   */
  lemma JavaHeapExample()
    ensures HandleGhidraError("Java heap space").error == "Insufficient memory"
  {
    assert Text.Lower("Java heap space") == "java heap space";
    HeapIsOutOfMemory();
  }

  /** "heap" is the first rule the lower-cased text meets. */
  lemma HeapIsOutOfMemory()
    ensures Classify("java heap space") == OutOfMemory
  {
    var s := "java heap space";
    assert Classify(s) == OutOfMemory by {
      Text.ContainsHasChar(s, "not found", 0);
      assert !Text.Contains(s, "not found");
      Text.ContainsHasChar(s, "ghidra", 0);
      assert !Text.Contains(s, "ghidra");
      Text.ContainsHasChar(s, "timeout", 0);
      assert !Text.Contains(s, "timeout");
      Text.ContainsHasChar(s, "timed out", 0);
      assert !Text.Contains(s, "timed out");
      Text.ContainsHasChar(s, "permission", 2);
      assert !Text.Contains(s, "permission");
      Text.ContainsHasChar(s, "denied", 0);
      assert !Text.Contains(s, "denied");
      assert Text.OccursAt(s, "heap", 5);
    }
  }

  /** A Java error that matches no rule gets the generic report, naming the context. */
  lemma JavaCrashExample(context: string)
    ensures HandleGhidraError("Java crashed", context).error == context + " failed"
    ensures HandleGhidraError("Java crashed", context).suggestion == "Please check the binary file and try again"
  {
    assert Text.Lower("Java crashed") == "java crashed";
    CrashIsGeneric();
  }

  /** No rule matches "java crashed". */
  lemma CrashIsGeneric()
    ensures Classify("java crashed") == Generic
  {
    var s := "java crashed";
    assert Classify(s) == Generic by {
      Text.ContainsHasChar(s, "not found", 0);
      assert !Text.Contains(s, "not found");
      Text.ContainsHasChar(s, "ghidra", 0);
      assert !Text.Contains(s, "ghidra");
      Text.ContainsHasChar(s, "timeout", 0);
      assert !Text.Contains(s, "timeout");
      Text.ContainsHasChar(s, "timed out", 0);
      assert !Text.Contains(s, "timed out");
      Text.ContainsHasChar(s, "permission", 0);
      assert !Text.Contains(s, "permission");
      Text.ContainsHasChar(s, "denied", 2);
      assert !Text.Contains(s, "denied");
      Text.ContainsHasChar(s, "memory", 0);
      assert !Text.Contains(s, "memory");
      Text.ContainsHasChar(s, "heap", 3);
      assert !Text.Contains(s, "heap");
      Text.ContainsHasChar(s, "unsupported", 0);
      assert !Text.Contains(s, "unsupported");
      Text.ContainsHasChar(s, "unknown format", 0);
      assert !Text.Contains(s, "unknown format");
    }
  }
}
