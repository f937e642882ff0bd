/**
 * What the three analyzers (code, specification, compliance) share: the
 * reasoning-service reply, the slice of it handed to the JSON decoder, the
 * conversion of decoded entries into records, and the errors that make an
 * analysis fail. The three `_parse_response` methods and the `_make_*`
 * loops of the three analyzer services are textually identical apart from
 * their fallbacks and record types, so they are defined once here.
 */
module LlmReply {
  import opened Wrappers
  import opened JsonValues
  import Text

  /**
   * The client's answer (`OpenAIResponse`): either a failure with its message,
   * or success carrying the reply content, which the service may leave empty
   * (`None`).
   */
  datatype Reply = Failed(message: string) | Answered(content: Option<string>)

  /**
   * A Python exception raised while turning a reply into a result. Only the
   * kind of exception is modelled; its text comes from `Externals.describe`.
   */
  datatype Fault =
    | NoReplyText                        // `None.find(...)` on a reply without content
    | NotADict                           // `.get` on a decoded value that is not an object
    | NotIterable(key: string)           // `for x in v` where `v` is null, a number or a boolean
    | NotAString(key: string)            // `.lower()` on a risk level that is not a string
    | NotANumber(key: string)            // `float(v)` rejecting the value
    | NoLength(key: string)              // `len(v)` on a value without a length
    | InvalidResponse(field: string)     // the response record rejecting a field's value
    | DuplicateKeyword(keys: set<string>) // a keyword argument given twice in a call

  /** Why an analysis failed: the service said so, or an exception was raised. */
  datatype AnalysisError = ServiceFailed(message: string) | Raised(fault: Fault)

  /**
   * The parts of the run-time the model does not look inside: `json.loads`
   * (which either decodes a text or raises `JSONDecodeError`), `float()` on a
   * string, and `str()` of an exception.
   */
  datatype Externals = Externals(
    decode: string -> Option<Json>,
    parseFloat: string -> Option<real>,
    describe: Fault -> string)

  /** `str(e)` for the exception that ended an analysis. */
  function ErrorText(e: AnalysisError, ext: Externals): string {
    match e
    case ServiceFailed(message) => "OpenAI failed: " + message
    case Raised(fault) => ext.describe(fault)
  }

  /** `llm_response.data.get("response", "")`, after the success check. */
  function ReplyText(reply: Reply): Result<string, AnalysisError> {
    match reply
    case Failed(message) => Failure(ServiceFailed(message))
    case Answered(None) => Failure(Raised(NoReplyText))
    case Answered(Some(text)) => Success(text)
  }

  /** Some `{` in the text is followed, later on, by a `}`. */
  predicate HasBracedSpan(text: string) {
    exists i, j | 0 <= i < j < |text| :: text[i] == '{' && text[j] == '}'
  }

  /**
   * The text `_parse_response` hands to `json.loads`: from the first `{`
   * through the last `}` when that span is non-empty, else the whole text.
   */
  function DecoderInput(text: string): (r: string)
    ensures HasBracedSpan(text) ==>
      exists i, j | 0 <= i < j < |text| ::
        && r == text[i..j + 1]
        && text[i] == '{' && '{' !in text[..i]
        && text[j] == '}' && '}' !in text[j + 1..]
    ensures !HasBracedSpan(text) ==> r == text
  {
    var start := Text.Find(text, '{');
    var end := Text.RFind(text, '}') + 1;
    BracedSpanBounds(text);
    if start >= 0 && end > start then text[start..end] else text
  }

  /** A braced span exists exactly when the first `{` comes before the last `}`. */
  lemma BracedSpanBounds(text: string)
    ensures HasBracedSpan(text) <==> Text.Find(text, '{') >= 0 && Text.RFind(text, '}') > Text.Find(text, '{')
  {
    var start := Text.Find(text, '{');
    var last := Text.RFind(text, '}');
    if HasBracedSpan(text) {
      var i, j :| 0 <= i < j < |text| && text[i] == '{' && text[j] == '}';
      assert start <= i;
      assert last >= j;
    }
  }

  /** `_parse_response`: the decoded slice, or `fallback` when decoding fails. */
  function ParseResponse(text: string, decode: string -> Option<Json>, fallback: Json): Json {
    match decode(DecoderInput(text))
    case Some(v) => v
    case None => fallback
  }

  /** The decoded reply as a dictionary, or the `AttributeError` of calling `.get` on it. */
  function AsDict(analysis: Json): Result<map<string, Json>, AnalysisError> {
    match analysis
    case JObj(fields) => Success(fields)
    case _ => Failure(Raised(NotADict))
  }

  /**
   * The `_make_*` loop: convert each entry in order, skipping those whose
   * construction raises.
   */
  function ConvertAll<T>(items: seq<Json>, make: Json -> Option<T>): (r: seq<T>)
    ensures |r| <= |items|
    ensures forall k | 0 <= k < |r| :: exists i | 0 <= i < |items| :: make(items[i]) == Some(r[k])
  {
    if |items| == 0 then []
    else
      var rest := ConvertAll(items[1..], make);
      assert forall k | 0 <= k < |rest| :: exists i | 0 <= i < |items| :: make(items[i]) == Some(rest[k]) by {
        forall k | 0 <= k < |rest|
          ensures exists i | 0 <= i < |items| :: make(items[i]) == Some(rest[k])
        {
          var i :| 0 <= i < |items[1..]| && make(items[1..][i]) == Some(rest[k]);
          assert make(items[i + 1]) == Some(rest[k]);
        }
      }
      match make(items[0])
      case Some(x) => [x] + rest
      case None => rest
  }

  /** Conversion distributes over concatenation: order is kept and entries are handled independently. */
  lemma {:induction false} ConvertAllAppend<T>(a: seq<Json>, b: seq<Json>, make: Json -> Option<T>)
    ensures ConvertAll(a + b, make) == ConvertAll(a, make) + ConvertAll(b, make)
    decreases |a|
  {
    if |a| == 0 {
      assert a + b == b;
    } else {
      assert (a + b)[0] == a[0];
      assert (a + b)[1..] == a[1..] + b;
      ConvertAllAppend(a[1..], b, make);
    }
  }

  /** A single entry is kept exactly when its construction succeeds. */
  lemma ConvertAllSingle<T>(e: Json, make: Json -> Option<T>)
    ensures ConvertAll([e], make) == if make(e).Some? then [make(e).value] else []
  {
  }

  /** When every entry converts, the output is the entries' conversions, one for one. */
  lemma {:induction false} ConvertAllKeepsGood<T>(items: seq<Json>, make: Json -> Option<T>)
    requires forall i | 0 <= i < |items| :: make(items[i]).Some?
    ensures |ConvertAll(items, make)| == |items|
    ensures forall i | 0 <= i < |items| :: ConvertAll(items, make)[i] == make(items[i]).value
  {
    if |items| > 0 {
      ConvertAllKeepsGood(items[1..], make);
    }
  }

  /** When no entry converts, the output is empty. */
  lemma {:induction false} ConvertAllDropsBad<T>(items: seq<Json>, make: Json -> Option<T>)
    requires forall i | 0 <= i < |items| :: make(items[i]).None?
    ensures ConvertAll(items, make) == []
  {
    if |items| > 0 {
      ConvertAllDropsBad(items[1..], make);
    }
  }

  /**
   * `self._make_x(analysis.get(key, []))`: a list is converted entry by entry.
   * Iterating a string yields one-character strings and iterating a
   * dictionary yields its keys; a string has no `.get`, so every such entry
   * is skipped and the result is empty. Iterating anything else raises.
   */
  function ConvertEntries<T>(v: Json, key: string, make: Json -> Option<T>): Result<seq<T>, AnalysisError> {
    match v
    case JArr(items) => Success(ConvertAll(items, make))
    case JStr(_) => Success([])
    case JObj(_) => Success([])
    case _ => Failure(Raised(NotIterable(key)))
  }

  /** Whether `for x in v` can iterate a decoded value. */
  predicate Iterable(v: Json) {
    v.JArr? || v.JStr? || v.JObj?
  }

  /** The records a `_make_*` loop collects from a value it can iterate. */
  function Collected<T>(v: Json, make: Json -> Option<T>): seq<T> {
    if v.JArr? then ConvertAll(v.items, make) else []
  }

  /** The conversion succeeds exactly on iterable values, and then collects their records. */
  lemma ConvertEntriesReads<T>(v: Json, key: string, make: Json -> Option<T>)
    ensures ConvertEntries(v, key, make).Success? <==> Iterable(v)
    ensures ConvertEntries(v, key, make).Success? ==> ConvertEntries(v, key, make).value == Collected(v, make)
    ensures ConvertEntries(v, key, make).Failure? ==> ConvertEntries(v, key, make).error == Raised(NotIterable(key))
  {
  }

  /** Whether the conversion fails, and with what error, depends on the value's shape only. */
  lemma ConvertEntriesShape<T, U>(v: Json, key: string, make: Json -> Option<T>, other: Json -> Option<U>)
    ensures ConvertEntries(v, key, make).Success? <==> ConvertEntries(v, key, other).Success?
    ensures ConvertEntries(v, key, make).Failure? ==>
      ConvertEntries(v, key, make).error == ConvertEntries(v, key, other).error
  {
  }

  /** A `Dict[str, Any]` response field. */
  function DictField(v: Json, field: string): Result<map<string, Json>, AnalysisError> {
    match v
    case JObj(fields) => Success(fields)
    case _ => Failure(Raised(InvalidResponse(field)))
  }

  /** The strings of a list, or `None` when an element is not a string. */
  function StringsOf(items: seq<Json>): (r: Option<seq<string>>)
    ensures r.Some? <==> forall i | 0 <= i < |items| :: items[i].JStr?
    ensures r.Some? ==> |r.value| == |items| && forall i | 0 <= i < |items| :: items[i] == JStr(r.value[i])
  {
    if |items| == 0 then Some([])
    else if !items[0].JStr? then None
    else
      var rest :- StringsOf(items[1..]);
      Some([items[0].s] + rest)
  }

  /** A value that validates as `List[str]`. */
  predicate IsStringList(v: Json) {
    v.JArr? && forall i | 0 <= i < |v.items| :: v.items[i].JStr?
  }

  /** A `List[str]` response field. */
  function StringListField(v: Json, field: string): Result<seq<string>, AnalysisError> {
    if v.JArr? && StringsOf(v.items).Some? then Success(StringsOf(v.items).value)
    else Failure(Raised(InvalidResponse(field)))
  }

  /** The single recommendation of the fallbacks is a valid `List[str]`. */
  lemma FallbackRecommendations(text: string)
    ensures StringListField(JArr([JStr(text)]), "recommendations") == Success([text])
  {
    var items := [JStr(text)];
    assert items[1..] == [];
    assert StringsOf(items[1..]) == Some([]);
    assert [items[0].s] + [] == [text];
  }

  /** A `str` response field. */
  function StringField(v: Json, field: string): Result<string, AnalysisError> {
    match v
    case JStr(s) => Success(s)
    case _ => Failure(Raised(InvalidResponse(field)))
  }
}
