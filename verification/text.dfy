/**
 * The Python `str` operations the core relies on, over `string` (a sequence
 * of Unicode scalar values, which is what a Python `str` holds): `strip`,
 * `lower`, `in`, `find`/`rfind`, `split`, `replace` and `splitlines`.
 */
module Text {

  /** Python's `str.isspace()`: the characters `strip()` removes. */
  predicate IsSpace(c: char) {
    || c == ' ' || c == '\t' || c == '\n' || c == '\r'
    || c == '\U{0B}' || c == '\U{0C}'
    || ('\U{1C}' <= c <= '\U{1F}')
    || c == '\U{85}' || c == '\U{A0}' || c == '\U{1680}'
    || ('\U{2000}' <= c <= '\U{200A}')
    || c == '\U{2028}' || c == '\U{2029}' || c == '\U{202F}' || c == '\U{205F}'
    || c == '\U{3000}'
  }

  /** Every character is whitespace (the empty string included). */
  predicate IsBlank(s: string) {
    forall i | 0 <= i < |s| :: IsSpace(s[i])
  }

  /** Python's `lstrip()`: the suffix left after dropping leading whitespace. */
  function TrimStart(s: string): (r: string)
    ensures |r| <= |s| && r == s[|s| - |r|..]
    ensures IsBlank(s[..|s| - |r|])
    ensures |r| > 0 ==> !IsSpace(r[0])
  {
    if |s| > 0 && IsSpace(s[0]) then TrimStart(s[1..]) else s
  }

  /** Python's `rstrip()`: the prefix left after dropping trailing whitespace. */
  function TrimEnd(s: string): (r: string)
    ensures |r| <= |s| && r == s[..|r|]
    ensures IsBlank(s[|r|..])
    ensures |r| > 0 ==> !IsSpace(r[|r| - 1])
  {
    if |s| > 0 && IsSpace(s[|s| - 1]) then TrimEnd(s[..|s| - 1]) else s
  }

  /** Python's `strip()`: `rstrip()` after `lstrip()`. */
  function Strip(s: string): (r: string)
    ensures |r| <= |s|
    ensures |r| > 0 ==> !IsSpace(r[0]) && !IsSpace(r[|r| - 1])
  {
    var t := TrimStart(s);
    var r := TrimEnd(t);
    assert |r| > 0 ==> r[0] == t[0];
    r
  }

  /**
   * What `strip()` keeps: the infix of `s` between its leading and trailing
   * whitespace.
   */
  lemma StripIsInfix(s: string)
    ensures exists k | 0 <= k <= |s| - |Strip(s)| ::
      Strip(s) == s[k..k + |Strip(s)|] && IsBlank(s[..k]) && IsBlank(s[k + |Strip(s)|..])
  {
    var t := TrimStart(s);
    var r := TrimEnd(t);
    var k := |s| - |t|;
    assert Strip(s) == r;
    assert t == s[k..];
    assert r == t[..|r|];
    assert r == s[k..k + |r|];
    assert IsBlank(s[..k]);
    assert s[k + |r|..] == t[|r|..];
    assert IsBlank(s[k + |r|..]);
  }

  /** Stripping only removes characters. */
  lemma StripChars(s: string)
    ensures forall c | c in Strip(s) :: c in s
  {
    var t := TrimStart(s);
    var r := TrimEnd(t);
    assert forall c | c in r :: c in t by {
      assert r == t[..|r|];
    }
    assert forall c | c in t :: c in s by {
      assert t == s[|s| - |t|..];
    }
  }

  /** Dropping leading whitespace keeps a string blank or not blank. */
  lemma TrimStartBlank(s: string)
    ensures IsBlank(TrimStart(s)) <==> IsBlank(s)
  {
    var t := TrimStart(s);
    var k := |s| - |t|;
    assert t == s[k..];
    assert IsBlank(s[..k]);
    if IsBlank(t) {
      forall i | 0 <= i < |s|
        ensures IsSpace(s[i])
      {
        if i < k {
          assert s[..k][i] == s[i];
        } else {
          assert t[i - k] == s[i];
        }
      }
    }
  }

  /** Dropping trailing whitespace leaves nothing exactly when the string is blank. */
  lemma TrimEndEmptyIffBlank(t: string)
    ensures TrimEnd(t) == "" <==> IsBlank(t)
  {
    var r := TrimEnd(t);
    if r == "" {
      assert t[|r|..] == t;
    } else {
      assert r[|r| - 1] == t[|r| - 1];
    }
  }

  /** `s.strip()` is falsy exactly when `s` consists of whitespace only. */
  lemma StripEmptyIffBlank(s: string)
    ensures Strip(s) == "" <==> IsBlank(s)
  {
    TrimStartBlank(s);
    TrimEndEmptyIffBlank(TrimStart(s));
  }

  /**
   * Python's `str.lower()` on one character, for the characters whose lower
   * case is a single ASCII letter: `A`..`Z` and the Kelvin sign U+212A.
   */
  function LowerChar(c: char): char {
    if 'A' <= c <= 'Z' then (c as int + 32) as char
    else if c == '\U{212A}' then 'k'
    else c
  }

  /** The inverse direction, used to state case-insensitivity. */
  function UpperChar(c: char): char {
    if 'a' <= c <= 'z' then (c as int - 32) as char else c
  }

  /** Python's `str.lower()`, character by character. */
  function Lower(s: string): string {
    seq(|s|, i requires 0 <= i < |s| => LowerChar(s[i]))
  }

  /** Python's `str.upper()` restricted to ASCII letters. */
  function Upper(s: string): string {
    seq(|s|, i requires 0 <= i < |s| => UpperChar(s[i]))
  }

  /** Lower-casing forgets any earlier change of ASCII case. */
  lemma LowerOfUpper(s: string)
    ensures Lower(Upper(s)) == Lower(s)
  {
    forall i | 0 <= i < |s|
      ensures Lower(Upper(s))[i] == Lower(s)[i]
    {
      var c := s[i];
      if 'a' <= c <= 'z' {
        assert LowerChar(UpperChar(c)) == c;
      }
    }
  }

  /** Lower-casing is idempotent. */
  lemma LowerIdempotent(s: string)
    ensures Lower(Lower(s)) == Lower(s)
  {
  }

  /** `sub` occurs in `s` starting at index `i`. */
  predicate OccursAt(s: string, sub: string, i: int) {
    0 <= i && i + |sub| <= |s| && s[i..i + |sub|] == sub
  }

  /** Python's `sub in s` for strings. */
  predicate Contains(s: string, sub: string) {
    exists i | 0 <= i <= |s| - |sub| :: OccursAt(s, sub, i)
  }

  /** Every character of a substring occurs in the string. */
  lemma ContainsHasChar(s: string, sub: string, k: int)
    requires 0 <= k < |sub|
    ensures Contains(s, sub) ==> sub[k] in s
  {
    if Contains(s, sub) {
      var i :| 0 <= i <= |s| - |sub| && OccursAt(s, sub, i);
      assert s[i + k] == s[i..i + |sub|][k];
    }
  }

  /** Python's `s.find(c)`: the first index of `c`, or -1. */
  function Find(s: string, c: char): (r: int)
    ensures -1 <= r < |s|
    ensures r == -1 <==> c !in s
    ensures r >= 0 ==> s[r] == c && c !in s[..r]
  {
    if |s| == 0 then -1
    else if s[0] == c then 0
    else
      var k := Find(s[1..], c);
      assert s[1..][..if k < 0 then 0 else k] == s[1..if k < 0 then 1 else k + 1];
      if k == -1 then -1 else k + 1
  }

  /** Python's `s.rfind(c)`: the last index of `c`, or -1. */
  function RFind(s: string, c: char): (r: int)
    ensures -1 <= r < |s|
    ensures r == -1 <==> c !in s
    ensures r >= 0 ==> s[r] == c && c !in s[r + 1..]
  {
    if |s| == 0 then -1
    else if s[|s| - 1] == c then |s| - 1
    else
      var k := RFind(s[..|s| - 1], c);
      assert c !in s[..|s| - 1] ==> c !in s by {
        assert s == s[..|s| - 1] + [s[|s| - 1]];
      }
      k
  }

  /** Python's `sep.join(parts)` for a one-character separator. */
  function Join(parts: seq<string>, sep: char): string {
    if |parts| == 0 then ""
    else if |parts| == 1 then parts[0]
    else parts[0] + [sep] + Join(parts[1..], sep)
  }

  /**
   * Python's `s.split(sep)` for a one-character separator: the pieces between
   * separators, in order, with empty pieces kept.
   */
  function Split(s: string, sep: char): (r: seq<string>)
    ensures |r| >= 1
    ensures forall i | 0 <= i < |r| :: sep !in r[i]
    ensures Join(r, sep) == s
    decreases |s|
  {
    var k := Find(s, sep);
    if k == -1 then [s]
    else
      var rest := Split(s[k + 1..], sep);
      SplitStep(s, sep, k, rest);
      [s[..k]] + rest
  }

  /** One step of `Split`: the piece before the first separator, then the pieces of the rest. */
  lemma SplitStep(s: string, sep: char, k: nat, rest: seq<string>)
    requires k < |s| && s[k] == sep && sep !in s[..k]
    requires |rest| >= 1 && Join(rest, sep) == s[k + 1..]
    requires forall i | 0 <= i < |rest| :: sep !in rest[i]
    ensures forall i | 0 <= i < |[s[..k]] + rest| :: sep !in ([s[..k]] + rest)[i]
    ensures Join([s[..k]] + rest, sep) == s
  {
    var r := [s[..k]] + rest;
    assert r[1..] == rest;
    assert Join(r, sep) == s[..k] + [sep] + s[k + 1..];
    assert s == s[..k] + [sep] + s[k + 1..];
    forall i | 0 <= i < |r|
      ensures sep !in r[i]
    {
      if i > 0 {
        assert r[i] == rest[i - 1];
      }
    }
  }

  /** The pieces of a split are the only separator-free pieces that join back to `s`. */
  lemma {:induction false} SplitUnique(parts: seq<string>, sep: char)
    requires |parts| >= 1
    requires forall i | 0 <= i < |parts| :: sep !in parts[i]
    ensures Split(Join(parts, sep), sep) == parts
    decreases |parts|
  {
    var s := Join(parts, sep);
    if |parts| == 1 {
      assert Find(s, sep) == -1;
    } else {
      var tail := Join(parts[1..], sep);
      var k := |parts[0]|;
      assert s == parts[0] + [sep] + tail;
      assert s[k] == sep && s[..k] == parts[0] && s[k + 1..] == tail;
      FindFirst(s, sep, k);
      assert Split(s, sep) == [parts[0]] + Split(tail, sep);
      SplitUnique(parts[1..], sep);
      assert parts == [parts[0]] + parts[1..];
    }
  }

  /** An occurrence with none before it is the one `Find` returns. */
  lemma FindFirst(s: string, c: char, k: nat)
    requires k < |s| && s[k] == c && c !in s[..k]
    ensures Find(s, c) == k
  {
  }

  /** Every character of a piece of a split comes from the split text. */
  lemma {:induction false} SplitPiecesFromText(s: string, sep: char, i: int)
    requires 0 <= i < |Split(s, sep)|
    ensures forall c | c in Split(s, sep)[i] :: c in s
    decreases |s|
  {
    var k := Find(s, sep);
    if k != -1 {
      if i == 0 {
        assert Split(s, sep)[0] == s[..k];
      } else {
        assert Split(s, sep)[i] == Split(s[k + 1..], sep)[i - 1];
        SplitPiecesFromText(s[k + 1..], sep, i - 1);
        assert forall c | c in s[k + 1..] :: c in s;
      }
    }
  }

  /** Python's `s.split(sep, 1)` on a string that contains `sep`. */
  function SplitOnce(s: string, sep: char): (r: (string, string))
    requires sep in s
    ensures s == r.0 + [sep] + r.1
    ensures sep !in r.0
  {
    var k := Find(s, sep);
    assert s == s[..k] + [sep] + s[k + 1..];
    (s[..k], s[k + 1..])
  }

  /** `SplitOnce` cuts at the first separator: the only cut whose head lacks it. */
  lemma SplitOnceUnique(s: string, sep: char)
    ensures forall head, tail | s == head + [sep] + tail && sep !in head ::
      sep in s && SplitOnce(s, sep) == (head, tail)
  {
    forall head, tail | s == head + [sep] + tail && sep !in head
      ensures sep in s && SplitOnce(s, sep) == (head, tail)
    {
      assert s[|head|] == sep;
      assert s[..|head|] == head;
      assert s[|head| + 1..] == tail;
      FindFirst(s, sep, |head|);
    }
  }

  /** Python's `s.replace(a, b)` for single characters. */
  function ReplaceChar(s: string, a: char, b: char): string {
    seq(|s|, i requires 0 <= i < |s| => if s[i] == a then b else s[i])
  }

  /** The line boundaries recognised by Python's `str.splitlines()`. */
  predicate IsLineBoundary(c: char) {
    || c == '\n' || c == '\r' || c == '\U{0B}' || c == '\U{0C}'
    || c == '\U{1C}' || c == '\U{1D}' || c == '\U{1E}'
    || c == '\U{85}' || c == '\U{2028}' || c == '\U{2029}'
  }

  /** The index just past the first line ending of `s` (`\r\n` counts as one), or `|s|`. */
  function NextLineStart(s: string): (r: nat)
    requires |s| > 0
    ensures 0 < r <= |s|
    ensures (forall i | 0 <= i < |s| :: !IsLineBoundary(s[i])) ==> r == |s|
    decreases |s|
  {
    if IsLineBoundary(s[0]) then
      if s[0] == '\r' && |s| > 1 && s[1] == '\n' then 2 else 1
    else if |s| == 1 then 1
    else 1 + NextLineStart(s[1..])
  }

  /** `len(s.splitlines())`. */
  function LineCount(s: string): (r: nat)
    ensures r <= |s|
    ensures r == 0 <==> s == ""
    ensures (forall i | 0 <= i < |s| :: !IsLineBoundary(s[i])) && s != "" ==> r == 1
    decreases |s|
  {
    if s == "" then 0
    else
      var k := NextLineStart(s);
      1 + LineCount(s[k..])
  }

  /** A text holding no line boundary. */
  predicate NoBoundary(s: string) {
    forall i | 0 <= i < |s| :: !IsLineBoundary(s[i])
  }

  /** A line terminator `splitlines()` recognises: `\r\n`, or one boundary character. */
  predicate LineEnding(eol: string) {
    eol == "\r\n" || (|eol| == 1 && IsLineBoundary(eol[0]))
  }

  /** The lines, each followed by the terminator `eol`. */
  function Terminated(lines: seq<string>, eol: string): string {
    if |lines| == 0 then "" else lines[0] + eol + Terminated(lines[1..], eol)
  }

  /** The next line starts right after the first line's terminator. */
  lemma {:induction false} NextLineStartAfter(line: string, eol: string, rest: string)
    requires NoBoundary(line) && LineEnding(eol)
    requires eol == "\r" ==> rest == "" || rest[0] != '\n'
    ensures NextLineStart(line + eol + rest) == |line| + |eol|
    decreases |line|
  {
    var s := line + eol + rest;
    if |line| == 0 {
      assert s == eol + rest;
      if eol != "\r\n" && eol[0] == '\r' {
        assert eol == "\r";
        assert |s| > 1 ==> s[1] == rest[0];
      }
    } else {
      assert s[0] == line[0];
      assert s[1..] == line[1..] + eol + rest;
      NextLineStartAfter(line[1..], eol, rest);
    }
  }

  /** Lines terminated by anything but `\n` never start with `\n`. */
  lemma {:induction false} TerminatedStart(lines: seq<string>, eol: string, last: string)
    requires LineEnding(eol) && eol[0] != '\n'
    requires forall i | 0 <= i < |lines| :: NoBoundary(lines[i])
    requires NoBoundary(last)
    ensures Terminated(lines, eol) + last == "" || (Terminated(lines, eol) + last)[0] != '\n'
  {
    var t := Terminated(lines, eol) + last;
    if |lines| == 0 {
      assert t == last;
      if |last| > 0 {
        assert !IsLineBoundary(last[0]);
      }
    } else {
      var head := lines[0];
      assert NoBoundary(head);
      assert t == head + (eol + Terminated(lines[1..], eol) + last);
      if |head| == 0 {
        assert t[0] == eol[0];
      } else {
        assert !IsLineBoundary(head[0]);
        assert t[0] == head[0];
      }
    }
  }

  /**
   * `len(s.splitlines())` counts lines: a text made of `n` lines, each ended
   * by a terminator, followed by a last unterminated piece, has `n` lines,
   * plus one when that last piece is not empty.
   */
  lemma {:induction false} LineCountOfLines(lines: seq<string>, eol: string, last: string)
    requires LineEnding(eol)
    requires forall i | 0 <= i < |lines| :: NoBoundary(lines[i])
    requires NoBoundary(last)
    ensures LineCount(Terminated(lines, eol) + last) == |lines| + (if last == "" then 0 else 1)
    decreases |lines|
  {
    if |lines| == 0 {
      assert Terminated(lines, eol) + last == last;
    } else {
      var rest := Terminated(lines[1..], eol) + last;
      var s := Terminated(lines, eol) + last;
      assert s == lines[0] + eol + rest;
      if eol == "\r" {
        TerminatedStart(lines[1..], eol, last);
      }
      NextLineStartAfter(lines[0], eol, rest);
      assert s[|lines[0]| + |eol|..] == rest;
      LineCountOfLines(lines[1..], eol, last);
    }
  }
}
