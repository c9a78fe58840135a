/**
 * The string handling of `Editor.open_buffer`: the escaping that puts the initial text inside an
 * Emacs Lisp string literal, and the clean-up of what `emacsclient` prints. The processes
 * themselves are a parameter: a `Session` maps the text the buffer starts with to the raw
 * output of the final `emacsclient` call, or None when a call fails.
 */
module Editor {
  import opened Common

  type Session = string -> Option<string>

  /** `s.replace(target, with)` for a one-character target: every occurrence, left to right. */
  function Replace(s: string, target: char, with: string): string {
    if s == [] then []
    else (if s[0] == target then with else [s[0]]) + Replace(s[1..], target, with)
  }

  /** The escaping expression of `open_buffer`: backslashes are doubled first, then quotes
      are escaped; None and the empty string both give the empty string. */
  function Escape(initial: Option<string>): string {
    match initial
    case None => ""
    case Some(s) => if s == "" then "" else Replace(Replace(s, '\\', "\\\\"), '"', "\\\"")
  }

  /** The reference escaping, one character at a time. */
  function EscapeChar(c: char): string {
    if c == '\\' then "\\\\" else if c == '"' then "\\\"" else [c]
  }

  function EscapeEach(s: string): string {
    if s == [] then [] else EscapeChar(s[0]) + EscapeEach(s[1..])
  }

  function Count(s: string, c: char): nat {
    if s == [] then 0 else (if s[0] == c then 1 else 0) + Count(s[1..], c)
  }

  /** The Emacs Lisp reader on the text between the quotes of a string literal, restricted to
      the two escapes `\\` and `\"`. An unescaped quote would close the literal early, and any
      other escape means something else to the reader: both are None. */
  function ReadLiteral(t: string): Option<string> {
    if t == [] then Some([])
    else if t[0] == '"' then None
    else if t[0] == '\\' then
      if |t| >= 2 && (t[1] == '\\' || t[1] == '"') then
        match ReadLiteral(t[2..])
        case None => None
        case Some(rest) => Some([t[1]] + rest)
      else None
    else
      match ReadLiteral(t[1..])
      case None => None
      case Some(rest) => Some([t[0]] + rest)
  }

  lemma {:induction false} ReplaceAppend(a: string, b: string, target: char, with: string)
    ensures Replace(a + b, target, with) == Replace(a, target, with) + Replace(b, target, with)
  {
    if a == [] {
      assert a + b == b;
    } else {
      assert (a + b)[1..] == a[1..] + b;
      ReplaceAppend(a[1..], b, target, with);
    }
  }

  /** The chained replacements escape each character independently. */
  lemma {:induction false} ChainIsPerChar(s: string)
    ensures Replace(Replace(s, '\\', "\\\\"), '"', "\\\"") == EscapeEach(s)
  {
    if s != [] {
      var head := if s[0] == '\\' then "\\\\" else [s[0]];
      var tail := Replace(s[1..], '\\', "\\\\");
      ReplaceAppend(head, tail, '"', "\\\"");
      if s[0] == '\\' {
        assert Replace(head, '"', "\\\"") == ['\\'] + Replace(['\\'], '"', "\\\"");
      } else {
        assert Replace(head, '"', "\\\"") == EscapeChar(s[0]) + Replace([], '"', "\\\"");
      }
      ChainIsPerChar(s[1..]);
    }
  }

  /** Each `\` becomes `\\`, each `"` becomes `\"`, every other character is copied in order;
      None escapes to the empty string. */
  lemma EscapeIsPerChar(initial: Option<string>)
    ensures Escape(initial) == EscapeEach(initial.GetOr(""))
  {
    if initial.Some? && initial.value != "" {
      ChainIsPerChar(initial.value);
    }
  }

  lemma {:induction false} EscapeEachLength(s: string)
    ensures |EscapeEach(s)| == |s| + Count(s, '\\') + Count(s, '"')
  {
    if s != [] {
      EscapeEachLength(s[1..]);
    }
  }

  /** The escaped text is longer than the input by the number of `\` and `"` in it. */
  lemma EscapeLength(s: string)
    ensures |Escape(Some(s))| == |s| + Count(s, '\\') + Count(s, '"')
  {
    EscapeIsPerChar(Some(s));
    EscapeEachLength(s);
  }

  lemma {:induction false} ReadBackEach(s: string)
    ensures ReadLiteral(EscapeEach(s)) == Some(s)
  {
    if s != [] {
      var t := EscapeEach(s);
      ReadBackEach(s[1..]);
      if s[0] == '\\' || s[0] == '"' {
        assert t[2..] == EscapeEach(s[1..]);
      } else {
        assert t[1..] == EscapeEach(s[1..]);
      }
      assert [s[0]] + s[1..] == s;
    }
  }

  /** Round trip: the Emacs reader turns the escaped text back into exactly the text given to
      `open_buffer` (the empty string for None), so the buffer starts with that text. */
  lemma ElispReadsBack(initial: Option<string>)
    ensures ReadLiteral(Escape(initial)) == Some(initial.GetOr(""))
  {
    EscapeIsPerChar(initial);
    ReadBackEach(initial.GetOr(""));
  }

  /** Conversely, the escaped form is the only literal body the reader turns into `s`. */
  lemma {:induction false} ReadLiteralOnlyFromEscape(t: string, s: string)
    requires ReadLiteral(t) == Some(s)
    ensures t == EscapeEach(s)
  {
    if t != [] {
      if t[0] == '\\' {
        var rest := ReadLiteral(t[2..]).value;
        ReadLiteralOnlyFromEscape(t[2..], rest);
        assert s == [t[1]] + rest;
        assert t == t[..2] + t[2..];
      } else {
        var rest := ReadLiteral(t[1..]).value;
        ReadLiteralOnlyFromEscape(t[1..], rest);
        assert s == [t[0]] + rest;
        assert t == [t[0]] + t[1..];
      }
    }
  }

  /** The order matters: escaping quotes before doubling backslashes turns `"` into `\\"`,
      where the reader sees an escaped backslash and then a quote that ends the literal. */
  lemma QuotesFirstBreaksLiteral()
    ensures Replace(Replace("\"", '"', "\\\""), '\\', "\\\\") == "\\\\\""
    ensures ReadLiteral("\\\\\"") == None
  {
    assert Replace("\"", '"', "\\\"") == "\\\"" + Replace([], '"', "\\\"");
    var once := "\\\"";
    assert Replace(once, '\\', "\\\\") == "\\\\" + Replace(once[1..], '\\', "\\\\");
    assert Replace(once[1..], '\\', "\\\\") == "\"" + Replace([], '\\', "\\\\");
    var twice := "\\\\\"";
    assert twice[2..] == "\"";
  }

  /** `str.isspace()`: the characters Python's argument-less `strip()` removes. */
  predicate IsSpace(c: char) {
    || '\t' <= c <= '\r'
    || '\U{1C}' <= c <= ' '
    || c == '\U{85}' || c == '\U{A0}' || c == '\U{1680}'
    || '\U{2000}' <= c <= '\U{200A}'
    || c == '\U{2028}' || c == '\U{2029}' || c == '\U{202F}' || c == '\U{205F}' || c == '\U{3000}'
  }

  predicate IsQuote(c: char) {
    c == '"'
  }

  function TrimStart(s: string, drop: char -> bool): string {
    if s != [] && drop(s[0]) then TrimStart(s[1..], drop) else s
  }

  function TrimEnd(s: string, drop: char -> bool): string {
    if s != [] && drop(s[|s| - 1]) then TrimEnd(s[..|s| - 1], drop) else s
  }

  /** `str.strip` with the characters `drop` accepts. */
  function Strip(s: string, drop: char -> bool): string {
    TrimEnd(TrimStart(s, drop), drop)
  }

  /** `stdout.strip().strip('"')`. */
  function Cleanup(out: string): string {
    Strip(Strip(out, IsSpace), IsQuote)
  }

  /** The result of `open_buffer`: the buffer starts with what the reader makes of the escaped
      text; an editor failure is None. */
  function OpenBuffer(session: Session, initial: Option<string>): Option<string> {
    match ReadLiteral(Escape(initial))
    case None => None
    case Some(text) =>
      match session(text)
      case None => None
      case Some(out) => Some(Cleanup(out))
  }

  /** Everything before index i is dropped; index i, if any, is kept. */
  ghost predicate TrimmedFront(s: string, drop: char -> bool, i: int) {
    0 <= i <= |s| && (forall k :: 0 <= k < i ==> drop(s[k])) && (i == |s| || !drop(s[i]))
  }

  lemma {:induction false} TrimStartSpec(s: string, drop: char -> bool) returns (i: int)
    ensures TrimmedFront(s, drop, i) && TrimStart(s, drop) == s[i..]
  {
    if s != [] && drop(s[0]) {
      var i' := TrimStartSpec(s[1..], drop);
      i := i' + 1;
      assert s[1..][i'..] == s[i..];
      forall k | 0 <= k < i ensures drop(s[k]) {
        if k > 0 { assert s[k] == s[1..][k - 1]; }
      }
    } else {
      i := 0;
    }
  }

  /** Everything from index j on is dropped; index j - 1, if any, is kept. */
  ghost predicate TrimmedBack(s: string, drop: char -> bool, j: int) {
    0 <= j <= |s| && (forall k :: j <= k < |s| ==> drop(s[k])) && (j == 0 || !drop(s[j - 1]))
  }

  lemma {:induction false} TrimEndSpec(s: string, drop: char -> bool) returns (j: int)
    ensures TrimmedBack(s, drop, j) && TrimEnd(s, drop) == s[..j]
  {
    if s != [] && drop(s[|s| - 1]) {
      var front := s[..|s| - 1];
      j := TrimEndSpec(front, drop);
      assert front[..j] == s[..j];
      forall k | j <= k < |s| ensures drop(s[k]) {
        if k < |s| - 1 { assert s[k] == front[k]; }
      }
    } else {
      j := |s|;
    }
  }

  /** `strip` keeps the contiguous middle s[i..j]: everything outside it is dropped, and the
      middle, unless empty, starts and ends with a kept character. */
  lemma StripSpec(s: string, drop: char -> bool) returns (i: int, j: int)
    ensures 0 <= i <= j <= |s| && Strip(s, drop) == s[i..j]
    ensures forall k :: 0 <= k < i || j <= k < |s| ==> drop(s[k])
    ensures Strip(s, drop) == [] || (!drop(s[i]) && !drop(s[j - 1]))
  {
    i, j := StripSlice(s, drop);
    forall k | j <= k < |s| ensures drop(s[k]) {
      assert s[k] == s[i..][k - i];
    }
  }

  /** The same, with what lies outside the middle left in the two trimming predicates. */
  lemma StripSlice(s: string, drop: char -> bool) returns (i: int, j: int)
    ensures 0 <= i <= j <= |s| && Strip(s, drop) == s[i..j]
    ensures TrimmedFront(s, drop, i) && TrimmedBack(s[i..], drop, j - i)
    ensures Strip(s, drop) == [] || (!drop(s[i]) && !drop(s[j - 1]))
  {
    i := TrimStartSpec(s, drop);
    var j' := TrimEndSpec(s[i..], drop);
    j := i + j';
    assert s[i..][..j'] == s[i..j];
    if j' > 0 {
      assert s[j - 1] == s[i..][j' - 1];
    }
  }

  /** The clean-up returns a contiguous piece of its input that neither starts nor ends with a
      quote. */
  lemma CleanupSpec(out: string)
    ensures exists i, j :: 0 <= i <= j <= |out| && Cleanup(out) == out[i..j]
    ensures Cleanup(out) == [] || (Cleanup(out)[0] != '"' && Cleanup(out)[|Cleanup(out)| - 1] != '"')
  {
    var i, j := StripSlice(out, IsSpace);
    var mid := out[i..j];
    var i', j' := StripSlice(mid, IsQuote);
    SliceOfSlice(out, i, j, i', j');
    assert Cleanup(out) == out[i + i'..i + j'];
  }

  lemma SliceOfSlice(s: string, i: int, j: int, a: int, b: int)
    requires 0 <= i <= j <= |s| && 0 <= a <= b <= j - i
    ensures s[i..j][a..b] == s[i + a..i + b]
  {
    assert forall k :: 0 <= k < b - a ==> s[i..j][a..b][k] == s[i + a + k];
  }

  /** `strip` leaves alone a string that neither starts nor ends with a dropped character. */
  lemma StripKeeps(s: string, drop: char -> bool)
    requires s == [] || (!drop(s[0]) && !drop(s[|s| - 1]))
    ensures Strip(s, drop) == s
  {
  }

  /** Cleaning up twice is cleaning up once, provided the first result exposes no whitespace
      at either end. */
  lemma CleanupIdempotent(out: string)
    requires var r := Cleanup(out); r == [] || (!IsSpace(r[0]) && !IsSpace(r[|r| - 1]))
    ensures Cleanup(Cleanup(out)) == Cleanup(out)
  {
    var r := Cleanup(out);
    CleanupSpec(out);
    StripKeeps(r, IsSpace);
    StripKeeps(r, IsQuote);
  }

  /** Without that proviso it fails: stripping the quotes can expose whitespace. */
  lemma CleanupNotIdempotent()
    ensures Cleanup("\" x\"") == " x"
    ensures Cleanup(" x") == "x"
  {
    var quoted := "\" x\"";
    StripKeeps(quoted, IsSpace);
    assert TrimStart(quoted, IsQuote) == TrimStart(quoted[1..], IsQuote);
    assert quoted[1..] == " x\"";
    assert TrimEnd(" x\"", IsQuote) == TrimEnd(" x", IsQuote);
    assert TrimStart(" x", IsSpace) == TrimStart("x", IsSpace);
  }

  /** The session sees exactly the text `open_buffer` was given (the empty string for None), and
      what comes back is the cleaned-up output. */
  lemma OpenBufferShowsInitial(session: Session, initial: Option<string>)
    ensures OpenBuffer(session, initial) ==
            match session(initial.GetOr(""))
            case None => None
            case Some(out) => Some(Cleanup(out))
  {
    ElispReadsBack(initial);
  }
}
