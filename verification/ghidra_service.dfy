/**
 * `GhidraDecompiler` (api/services/ghidra_service.py): the checks made on an
 * uploaded binary before analysis, the reading of the metadata file the
 * decompilation script writes, and the shaping of the analysis outcome into
 * the result dictionary. The headless analyzer itself, the files it writes
 * and the temporary project directory are outside the model: the outcome of
 * a run and the contents of the output files arrive as inputs.
 */
module GhidraService {
  import opened Wrappers
  import Text
  import ErrorHandler

  /** A byte of a file. */
  newtype byte = b: int | 0 <= b < 256

  /** The largest accepted file, 100 MiB. */
  const MaxFileSize: nat := 100 * 1024 * 1024

  /** The file at the path handed to `validate_binary_file`. */
  datatype FileState = Missing | Present(content: seq<byte>)

  /** The magic numbers recognised as binaries: ELF, PE/DOS, the Mach-O variants and universal binaries. */
  const Signatures: seq<seq<byte>> := [
    [0x7f, 0x45, 0x4c, 0x46],
    [0x4d, 0x5a],
    [0xfe, 0xed, 0xfa],
    [0xfe, 0xed, 0xfa, 0xce],
    [0xcf, 0xfa, 0xed, 0xfe],
    [0xca, 0xfe, 0xba, 0xbe]]

  /** The message for a file whose format is recognised. */
  const ValidMessage: string := "Valid binary file"

  /** The message for a file accepted without a recognised signature. */
  const CautionMessage: string := "File format not clearly identified, proceeding with caution"

  /** `bytes.startswith`. */
  predicate StartsWith(s: seq<byte>, prefix: seq<byte>) {
    |prefix| <= |s| && s[..|prefix|] == prefix
  }

  /** `f.read(16)`: at most the first sixteen bytes. */
  function Magic(content: seq<byte>): seq<byte> {
    if |content| <= 16 then content else content[..16]
  }

  /** Some listed signature starts the file. */
  predicate HasSignature(content: seq<byte>) {
    exists k | 0 <= k < |Signatures| :: StartsWith(Magic(content), Signatures[k])
  }

  /** `any(magic.startswith(sig) for sig in sigs)`, tried in order. */
  function AnyPrefix(magic: seq<byte>, sigs: seq<seq<byte>>): (r: bool)
    ensures r <==> exists k | 0 <= k < |sigs| :: StartsWith(magic, sigs[k])
  {
    if |sigs| == 0 then false
    else
      StartsWith(magic, sigs[0]) || (
        var rest := AnyPrefix(magic, sigs[1..]);
        assert rest <==> exists k | 0 <= k < |sigs| - 1 :: StartsWith(magic, sigs[1..][k]);
        assert forall k | 1 <= k < |sigs| :: sigs[k] == sigs[1..][k - 1];
        rest)
  }

  /**
   * `validate_binary_file`: existence, then emptiness, then the size bound,
   * each rejecting; a file that passes all three is always accepted, and the
   * magic number only chooses the message.
   */
  function ValidateBinaryFile(file: FileState): (r: (bool, string))
    ensures file.Missing? ==> r == (false, "File does not exist")
    ensures file.Present? && |file.content| == 0 ==> r == (false, "File is empty")
    ensures file.Present? && |file.content| > MaxFileSize ==> r == (false, "File too large (max 100MB)")
    ensures r.0 <==> file.Present? && 0 < |file.content| <= MaxFileSize
    ensures r.0 ==> (r.1 == ValidMessage <==> HasSignature(file.content))
    ensures r.0 && !HasSignature(file.content) ==> r.1 == CautionMessage
  {
    match file
    case Missing => (false, "File does not exist")
    case Present(content) =>
      if |content| == 0 then (false, "File is empty")
      else if |content| > MaxFileSize then (false, "File too large (max 100MB)")
      else if !AnyPrefix(Magic(content), Signatures) then (true, CautionMessage)
      else (true, ValidMessage)
  }

  /** The files the source's tests use: an ELF header and a DOS header are recognised; an empty file is refused. */
  lemma ValidationExamples(padding: seq<byte>)
    requires |padding| <= 100
    ensures ValidateBinaryFile(Present([0x7f, 0x45, 0x4c, 0x46, 0x01, 0x01, 0x01, 0x00] + padding)) == (true, ValidMessage)
    ensures ValidateBinaryFile(Present([0x4d, 0x5a] + padding)) == (true, ValidMessage)
    ensures ValidateBinaryFile(Present([])) == (false, "File is empty")
    ensures ValidateBinaryFile(Missing) == (false, "File does not exist")
  {
    var elf: seq<byte> := [0x7f, 0x45, 0x4c, 0x46, 0x01, 0x01, 0x01, 0x00] + padding;
    assert StartsWith(Magic(elf), Signatures[0]);
    var pe: seq<byte> := [0x4d, 0x5a] + padding;
    assert StartsWith(Magic(pe), Signatures[1]);
  }

  /** How one run of the headless analyzer ended. */
  datatype AnalysisRun =
    | Exited(returnCode: int, stdout: string, stderr: string)
    | TimedOut
    | LaunchFailed(reason: string)

  /** `_run_ghidra_analysis`: `(success, output, error)`; success means return code 0. */
  function RunGhidraAnalysis(run: AnalysisRun): (r: (bool, string, string))
    ensures r.0 <==> run.Exited? && run.returnCode == 0
    ensures run.Exited? ==> r.1 == run.stdout && r.2 == run.stderr
    ensures run.TimedOut? ==> r == (false, "", "Analysis timed out after 5 minutes")
    ensures run.LaunchFailed? ==> r == (false, "", run.reason)
  {
    match run
    case Exited(code, out, err) => (code == 0, out, err)
    case TimedOut => (false, "", "Analysis timed out after 5 minutes")
    case LaunchFailed(reason) => (false, "", reason)
  }

  /** The key a `Key: value` line contributes: stripped, lower-cased, spaces turned to underscores. */
  function LineKey(line: string): (r: string)
    requires ':' in line
    ensures forall i | 0 <= i < |r| :: r[i] != ' ' && !('A' <= r[i] <= 'Z')
    ensures forall head, tail | line == head + [':'] + tail && ':' !in head ::
      r == Text.ReplaceChar(Text.Lower(Text.Strip(head)), ' ', '_')
  {
    Text.SplitOnceUnique(line, ':');
    var parts := Text.SplitOnce(line, ':');
    Text.ReplaceChar(Text.Lower(Text.Strip(parts.0)), ' ', '_')
  }

  /** The entry a line contributes: its key and its stripped value, when it holds a colon. */
  function LineEntry(line: string): (r: Option<(string, string)>)
    ensures r.Some? <==> ':' in line
    ensures forall head, tail | line == head + [':'] + tail && ':' !in head ::
      r == Some((Text.ReplaceChar(Text.Lower(Text.Strip(head)), ' ', '_'), Text.Strip(tail)))
  {
    Text.SplitOnceUnique(line, ':');
    if ':' in line then
      var parts := Text.SplitOnce(line, ':');
      Some((LineKey(line), Text.Strip(parts.1)))
    else None
  }

  /**
   * The entries `entryOf` finds in the lines, in order; lines it finds none
   * in contribute nothing.
   */
  function Entries(lines: seq<string>, entryOf: string -> Option<(string, string)>): (r: seq<(string, string)>)
    ensures |r| <= |lines|
  {
    if |lines| == 0 then []
    else
      match entryOf(lines[0])
      case Some(e) => [e] + Entries(lines[1..], entryOf)
      case None => Entries(lines[1..], entryOf)
  }

  /** Lines without entries give none. */
  lemma {:induction false} NoEntries(lines: seq<string>, entryOf: string -> Option<(string, string)>)
    requires forall i | 0 <= i < |lines| :: entryOf(lines[i]).None?
    ensures Entries(lines, entryOf) == []
    decreases |lines|
  {
    if |lines| > 0 {
      assert entryOf(lines[0]).None?;
      NoEntries(lines[1..], entryOf);
    }
  }

  /** Every entry comes from one of the lines. */
  lemma {:induction false} EntriesFromLines(lines: seq<string>, entryOf: string -> Option<(string, string)>)
    ensures forall k | 0 <= k < |Entries(lines, entryOf)| ::
      exists j | 0 <= j < |lines| :: entryOf(lines[j]) == Some(Entries(lines, entryOf)[k])
    decreases |lines|
  {
    if |lines| > 0 {
      var tail := lines[1..];
      var rest := Entries(tail, entryOf);
      EntriesFromLines(tail, entryOf);
      var r := Entries(lines, entryOf);
      forall k | 0 <= k < |r|
        ensures exists j | 0 <= j < |lines| :: entryOf(lines[j]) == Some(r[k])
      {
        match entryOf(lines[0])
        case Some(e) =>
          assert r == [e] + rest;
          if k == 0 {
            assert entryOf(lines[0]) == Some(r[0]);
          } else {
            assert r[k] == rest[k - 1];
            var j :| 0 <= j < |tail| && entryOf(tail[j]) == Some(rest[k - 1]);
            assert tail[j] == lines[j + 1];
          }
        case None =>
          assert r == rest;
          var j :| 0 <= j < |tail| && entryOf(tail[j]) == Some(rest[k]);
          assert tail[j] == lines[j + 1];
      }
    } else {
      assert Entries(lines, entryOf) == [];
    }
  }

  /** Later entries come later: the entries of two runs of lines are the runs' entries, concatenated. */
  lemma {:induction false} EntriesAppend(a: seq<string>, b: seq<string>, entryOf: string -> Option<(string, string)>)
    ensures Entries(a + b, entryOf) == Entries(a, entryOf) + Entries(b, entryOf)
    decreases |a|
  {
    if |a| == 0 {
      assert a + b == b;
    } else {
      assert (a + b)[0] == a[0];
      assert (a + b)[1..] == a[1..] + b;
      EntriesAppend(a[1..], b, entryOf);
    }
  }

  /** Some entry has key `k`. */
  predicate HasKey(entries: seq<(string, string)>, k: string) {
    exists i | 0 <= i < |entries| :: entries[i].0 == k
  }

  /**
   * Storing entries one after another into `m`: every entry stores its value
   * under its key, later entries overwriting earlier ones.
   */
  function Store(m: map<string, string>, entries: seq<(string, string)>): (r: map<string, string>)
    ensures forall k :: k in r <==> k in m || HasKey(entries, k)
    ensures forall k | k in m && !HasKey(entries, k) :: r[k] == m[k]
    decreases |entries|
  {
    if |entries| == 0 then m
    else
      var init := entries[..|entries| - 1];
      var last := entries[|entries| - 1];
      var prior := Store(m, init);
      assert forall k :: HasKey(entries, k) <==> HasKey(init, k) || last.0 == k by {
        forall k
          ensures HasKey(entries, k) <==> HasKey(init, k) || last.0 == k
        {
          if HasKey(init, k) {
            var i :| 0 <= i < |init| && init[i].0 == k;
            assert entries[i] == init[i];
          }
          if HasKey(entries, k) {
            var i :| 0 <= i < |entries| && entries[i].0 == k;
            if i < |init| {
              assert init[i] == entries[i];
            }
          }
        }
      }
      prior[last.0 := last.1]
  }

  /** The last entry with a key decides that key's value. */
  lemma {:induction false} LastEntryWins(m: map<string, string>, entries: seq<(string, string)>, i: nat)
    requires i < |entries|
    requires forall j | i < j < |entries| :: entries[j].0 != entries[i].0
    ensures entries[i].0 in Store(m, entries)
    ensures Store(m, entries)[entries[i].0] == entries[i].1
    decreases |entries|
  {
    var init := entries[..|entries| - 1];
    if i < |entries| - 1 {
      assert init[i] == entries[i];
      forall j | i < j < |init|
        ensures init[j].0 != init[i].0
      {
        assert init[j] == entries[j];
      }
      LastEntryWins(m, init, i);
    }
  }

  /** A line that yields an entry contributes exactly that entry. */
  lemma EntriesSingle(line: string, entryOf: string -> Option<(string, string)>)
    requires entryOf(line).Some?
    ensures Entries([line], entryOf) == [entryOf(line).value]
  {
    assert [line][1..] == [];
  }

  /** A sequence is its part before index `i`, the element at `i`, and the rest. */
  lemma SplitAt<T>(s: seq<T>, i: nat)
    requires i < |s|
    ensures s == s[..i] + ([s[i]] + s[i + 1..])
  {
  }

  /** The entries of the lines around a line that yields one. */
  lemma EntriesAround(lines: seq<string>, entryOf: string -> Option<(string, string)>, i: nat)
    requires i < |lines| && entryOf(lines[i]).Some?
    ensures Entries(lines, entryOf)
         == Entries(lines[..i], entryOf) + ([entryOf(lines[i]).value] + Entries(lines[i + 1..], entryOf))
  {
    var pre, x, post := lines[..i], [lines[i]], lines[i + 1..];
    SplitAt(lines, i);
    EntriesSingle(lines[i], entryOf);
    EntriesAppend(x, post, entryOf);
    EntriesAppend(pre, x + post, entryOf);
  }

  /**
   * For the metadata lines: the last line that yields a key decides that
   * key's value, whatever came before.
   */
  lemma LastLineWins(m: map<string, string>, lines: seq<string>, entryOf: string -> Option<(string, string)>, i: nat)
    requires i < |lines| && entryOf(lines[i]).Some?
    requires forall j | i < j < |lines| :: entryOf(lines[j]).Some? ==> entryOf(lines[j]).value.0 != entryOf(lines[i]).value.0
    ensures entryOf(lines[i]).value.0 in Store(m, Entries(lines, entryOf))
    ensures Store(m, Entries(lines, entryOf))[entryOf(lines[i]).value.0] == entryOf(lines[i]).value.1
  {
    var e := entryOf(lines[i]).value;
    var before := Entries(lines[..i], entryOf);
    var rest := lines[i + 1..];
    var after := Entries(rest, entryOf);
    EntriesAround(lines, entryOf, i);
    EntriesFromLines(rest, entryOf);
    var all := Entries(lines, entryOf);
    assert all[|before|] == e;
    forall j | |before| < j < |all|
      ensures all[j].0 != e.0
    {
      var k := j - |before| - 1;
      assert all[j] == after[k];
      var t :| 0 <= t < |rest| && entryOf(rest[t]) == Some(after[k]);
      assert rest[t] == lines[i + 1 + t];
    }
    LastEntryWins(m, all, |before|);
  }

  /** The metadata of `_parse_results`: seeded with the filename, then the lines of the stripped file. */
  function ParseMetadata(filename: string, content: string): (r: map<string, string>)
    ensures "filename" in r
    ensures !HasKey(Entries(Text.Split(Text.Strip(content), '\n'), LineEntry), "filename") ==> r["filename"] == filename
  {
    var seed := map["filename" := filename];
    var entries := Entries(Text.Split(Text.Strip(content), '\n'), LineEntry);
    var r := Store(seed, entries);
    assert "filename" in seed;
    r
  }

  /** A metadata file without a colon leaves only the filename. */
  lemma NoColonNoMetadata(filename: string, content: string)
    requires ':' !in content
    ensures ParseMetadata(filename, content) == map["filename" := filename]
  {
    var t := Text.Strip(content);
    var lines := Text.Split(t, '\n');
    Text.StripChars(content);
    forall i | 0 <= i < |lines|
      ensures LineEntry(lines[i]).None?
    {
      Text.SplitPiecesFromText(t, '\n', i);
      assert ':' !in lines[i];
    }
    NoEntries(lines, LineEntry);
    assert Store(map["filename" := filename], []) == map["filename" := filename];
  }

  /** The contents of the three output files, `None` for a file that was not written. */
  datatype OutputFiles = OutputFiles(assembly: Option<string>, decompiled: Option<string>, metadata: Option<string>)

  /** What `_parse_results` returns. */
  datatype ParsedResults = ParsedResults(assemblyCode: string, decompiledCode: string, metadata: map<string, string>)

  /** `_parse_results`: each code text is its file's content or empty; the metadata is parsed. */
  function ParseResults(filename: string, files: OutputFiles): (r: ParsedResults)
    ensures r.assemblyCode == files.assembly.GetOr("")
    ensures r.decompiledCode == files.decompiled.GetOr("")
    ensures files.metadata.None? ==> r.metadata == map["filename" := filename]
    ensures "filename" in r.metadata
  {
    ParsedResults(
      files.assembly.GetOr(""),
      files.decompiled.GetOr(""),
      match files.metadata
      case None => map["filename" := filename]
      case Some(content) => ParseMetadata(filename, content))
  }

  /** What happened inside `decompile_binary`: setting up raised, or the analyzer ran and left files. */
  datatype DecompileOutcome = SetupRaised(errorText: string) | Ran(run: AnalysisRun, files: OutputFiles)

  /** The dictionary `decompile_binary` returns. */
  datatype DecompileResult =
    | Decompiled(results: ParsedResults)
    | AnalysisFailed(error: string)
    | Crashed(report: ErrorHandler.ErrorReport)
  {
    /** `result['success']`. */
    predicate Succeeded() {
      Decompiled?
    }

    /** `result['error']`, which every failure carries. */
    function Error(): string
      requires !Decompiled?
    {
      if AnalysisFailed? then error else report.error
    }

    /** `result['assembly_code']`. */
    function AssemblyCode(): string {
      if Decompiled? then results.assemblyCode else ""
    }

    /** `result['decompiled_code']`. */
    function DecompiledCode(): string {
      if Decompiled? then results.decompiledCode else ""
    }

    /** `result['metadata']`. */
    function Metadata(): map<string, string> {
      if Decompiled? then results.metadata else map[]
    }
  }

  /**
   * `decompile_binary`: a run with return code 0 gives the parsed results;
   * any other run gives the analyzer's error behind a fixed prefix; an
   * exception during setup goes through the error handler.
   */
  function DecompileBinary(filename: string, outcome: DecompileOutcome): (r: DecompileResult)
    ensures r.Succeeded() <==> outcome.Ran? && outcome.run.Exited? && outcome.run.returnCode == 0
    ensures r.Succeeded() ==> r.results == ParseResults(filename, outcome.files)
    ensures r.AnalysisFailed? ==> outcome.Ran? && r.error == "Ghidra analysis failed: " + RunGhidraAnalysis(outcome.run).2
    ensures outcome.SetupRaised? ==> r == Crashed(ErrorHandler.HandleGhidraError(outcome.errorText, "Binary decompilation"))
    ensures !r.Succeeded() ==> r.AssemblyCode() == "" && r.DecompiledCode() == "" && r.Metadata() == map[]
  {
    match outcome
    case SetupRaised(text) => Crashed(ErrorHandler.HandleGhidraError(text, "Binary decompilation"))
    case Ran(run, files) =>
      var (ok, _, err) := RunGhidraAnalysis(run);
      if !ok then AnalysisFailed("Ghidra analysis failed: " + err)
      else Decompiled(ParseResults(filename, files))
  }

  /**
   * A failed run is reported with the analyzer's own text; the error
   * handler is consulted only for exceptions, so "Java not found" is not
   * turned into "Java runtime not found". A timeout has its fixed text.
   */
  lemma FailedRunKeepsItsText(filename: string, files: OutputFiles)
    ensures DecompileBinary(filename, Ran(Exited(1, "", "Java not found"), files))
         == AnalysisFailed("Ghidra analysis failed: " + "Java not found")
    ensures DecompileBinary(filename, Ran(TimedOut, files))
         == AnalysisFailed("Ghidra analysis failed: " + "Analysis timed out after 5 minutes")
  {
  }
}
