/**
  Hook command lines (`src/hooks.rs`): how an executable path is quoted for the
  shell, how it is read back, and what a POSIX shell makes of it.  Unix branch.
*/
module HookCommand {
  import opened Options

  datatype HookEvent = SessionStart | UserPromptSubmit | Stop

  /** A path that is not valid Unicode cannot be written into a command. */
  datatype ExecutablePath = Text(path: string) | NotUnicode

  datatype HookError = ConfirmationRequired | InvalidHooksFile | UnsafeExecutablePath

  function CommandName(event: HookEvent): string {
    match event
    case SessionStart => "session-start"
    case UserPromptSubmit => "user-prompt-submit"
    case Stop => "stop"
  }

  /** `HookEvent::parse`: the event a command-line word stands for. */
  function ParseEvent(value: string): Option<HookEvent> {
    if value == "session-start" then Some(SessionStart)
    else if value == "user-prompt-submit" then Some(UserPromptSubmit)
    else if value == "stop" then Some(Stop)
    else None
  }

  function Suffix(event: HookEvent): string {
    " hook " + CommandName(event)
  }

  // ----- Printing -----

  const ESCAPED_SINGLE_QUOTE: string := "'\"'\"'"

  function Escaped(s: string): string {
    if s == [] then []
    else (if s[0] == '\'' then ESCAPED_SINGLE_QUOTE else [s[0]]) + Escaped(s[1..])
  }

  function Quote(s: string): string {
    ['\''] + Escaped(s) + ['\'']
  }

  function GenerateCommand(executable: ExecutablePath, event: HookEvent): Result<string, HookError> {
    match executable
    case Text(path) => Success(Quote(path) + Suffix(event))
    case NotUnicode => Failure(UnsafeExecutablePath)
  }

  // ----- Parsing -----

  predicate IsPrefix(p: string, s: string) { |p| <= |s| && s[..|p|] == p }

  function StripSuffix(s: string, suffix: string): Option<string> {
    if |suffix| <= |s| && s[|s| - |suffix|..] == suffix then Some(s[..|s| - |suffix|]) else None
  }

  /** Unicode White_Space, as `char::is_whitespace`. */
  predicate IsWhitespace(c: char) {
    var u := c as int;
    || 0x09 <= u <= 0x0D || u == 0x20 || u == 0x85 || u == 0xA0 || u == 0x1680
    || 0x2000 <= u <= 0x200A || u == 0x2028 || u == 0x2029 || u == 0x202F || u == 0x205F || u == 0x3000
  }

  function TrimStart(s: string): (r: string)
    ensures |r| <= |s|
  {
    if s != [] && IsWhitespace(s[0]) then TrimStart(s[1..]) else s
  }

  function TrimEnd(s: string): (r: string)
    ensures |r| <= |s|
  {
    if s != [] && IsWhitespace(s[|s| - 1]) then TrimEnd(s[..|s| - 1]) else s
  }

  function Trim(s: string): string { TrimEnd(TrimStart(s)) }

  function DecodeBody(remaining: string, decoded: string): Option<string>
    decreases |remaining|
  {
    if remaining == [] then Some(decoded)
    else if IsPrefix(ESCAPED_SINGLE_QUOTE, remaining) then
      DecodeBody(remaining[|ESCAPED_SINGLE_QUOTE|..], decoded + ['\''])
    else if remaining[0] == '\'' then None
    else DecodeBody(remaining[1..], decoded + [remaining[0]])
  }

  predicate IsEnclosed(encoded: string, q: char) {
    |encoded| >= 2 && encoded[0] == q && encoded[|encoded| - 1] == q
  }

  function Decode(encoded: string): Option<string> {
    if IsEnclosed(encoded, '\'') then DecodeBody(encoded[1..|encoded| - 1], []) else None
  }

  method DecodePosixSingleQuoted(encoded: string) returns (r: Option<string>)
    ensures r.Some? ==> encoded == Quote(r.value)
    ensures r.None? ==> forall d :: encoded != Quote(d)
  {
    DecodeExactly(encoded);
    if !IsEnclosed(encoded, '\'') {
      return None;
    }
    var remaining, decoded := encoded[1..|encoded| - 1], "";
    while remaining != []
      invariant DecodeBody(remaining, decoded) == Decode(encoded)
      decreases |remaining|
    {
      if IsPrefix(ESCAPED_SINGLE_QUOTE, remaining) {
        decoded := decoded + ['\''];
        remaining := remaining[|ESCAPED_SINGLE_QUOTE|..];
      } else {
        var character := remaining[0];
        if character == '\'' {
          return None;
        }
        decoded := decoded + [character];
        remaining := remaining[1..];
      }
    }
    r := Some(decoded);
  }

  /** `replace("\\\"", "\"")`. */
  function Unescaped(s: string): string {
    if s == [] then []
    else if IsPrefix("\\\"", s) then ['"'] + Unescaped(s[2..])
    else [s[0]] + Unescaped(s[1..])
  }

  /** The executable a command line runs for an event, if it has the generated shape. */
  function CommandExecutable(command: string, event: HookEvent): Option<string> {
    match StripSuffix(command, Suffix(event))
    case None => None
    case Some(stem) =>
      var encoded := Trim(stem);
      if encoded != [] && encoded[0] == '\'' && encoded[|encoded| - 1] == '\'' then Decode(encoded)
      else if IsEnclosed(encoded, '"') then Some(Unescaped(encoded[1..|encoded| - 1]))
      else Some(Unescaped(encoded))
  }

  // ----- Round trip -----

  lemma {:induction false} DecodeBodyExactly(body: string, before: string, d: string)
    ensures DecodeBody(body, before) == Some(before + d) <==> body == Escaped(d)
    ensures forall r :: DecodeBody(body, before) == Some(r) ==> IsPrefix(before, r)
    decreases |body|
  {
    if body == [] {
      assert d != [] ==> |Escaped(d)| > 0;
      assert before + d == before <==> d == [];
    } else if IsPrefix(ESCAPED_SINGLE_QUOTE, body) {
      var rest := body[|ESCAPED_SINGLE_QUOTE|..];
      assert body == ESCAPED_SINGLE_QUOTE + rest;
      DecodeOne(body, rest, before, '\'', ESCAPED_SINGLE_QUOTE, d);
    } else if body[0] != '\'' {
      assert body == [body[0]] + body[1..];
      DecodeOne(body, body[1..], before, body[0], [body[0]], d);
    } else {
      LoneQuoteIsNoEscape(d);
    }
  }

  lemma {:induction false} LoneQuoteIsNoEscape(d: string)
    ensures d == [] || Escaped(d)[0] != '\'' || IsPrefix(ESCAPED_SINGLE_QUOTE, Escaped(d))
  {
  }

  lemma {:induction false} DecodeOne(body: string, rest: string, before: string, c: char, code: string, d: string)
    requires body == code + rest && |code| > 0
    requires code == (if c == '\'' then ESCAPED_SINGLE_QUOTE else [c])
    requires DecodeBody(body, before) == DecodeBody(rest, before + [c])
    ensures DecodeBody(body, before) == Some(before + d) <==> body == Escaped(d)
    ensures forall r :: DecodeBody(body, before) == Some(r) ==> IsPrefix(before, r)
    decreases |body|, 0
  {
    DecodeBodyExactly(rest, before + [c], if d == [] then [] else d[1..]);
    forall r | DecodeBody(body, before) == Some(r)
      ensures IsPrefix(before, r) && |r| > |before| && r[|before|] == c
    {
      assert IsPrefix(before + [c], r);
      assert r[..|before|] == (before + [c])[..|before|];
      assert r[|before|] == r[..|before| + 1][|before|];
    }
    if d != [] && d[0] == c {
      assert before + d == before + [c] + d[1..];
      assert body == Escaped(d) <==> rest == Escaped(d[1..]) by {
        assert Escaped(d) == code + Escaped(d[1..]);
        assert (code + rest)[|code|..] == rest && (code + Escaped(d[1..]))[|code|..] == Escaped(d[1..]);
      }
    } else {
      assert body[0] == c;
      if d != [] {
        assert Escaped(d)[0] == d[0];
      }
      assert DecodeBody(body, before) != Some(before + d);
    }
  }

  /** What is accepted is exactly the quoting of what it decodes to. */
  lemma DecodeExactly(encoded: string)
    ensures forall d :: Decode(encoded) == Some(d) <==> encoded == Quote(d)
  {
    forall d ensures Decode(encoded) == Some(d) <==> encoded == Quote(d) {
      assert IsEnclosed(Quote(d), '\'');
      assert Quote(d)[1..|Quote(d)| - 1] == Escaped(d);
      if IsEnclosed(encoded, '\'') {
        var body := encoded[1..|encoded| - 1];
        assert encoded == ['\''] + body + ['\''];
        DecodeBodyExactly(body, [], d);
        assert [] + d == d;
      }
    }
  }

  lemma TrimQuoted(s: string)
    ensures Trim(Quote(s)) == Quote(s)
  {
  }

  /** Reading a generated command back gives the path, for every path and event. */
  lemma CommandRoundTrip(path: string, event: HookEvent)
    ensures CommandExecutable(Quote(path) + Suffix(event), event) == Some(path)
  {
    var command := Quote(path) + Suffix(event);
    assert StripSuffix(command, Suffix(event)) == Some(Quote(path)) by {
      assert command[|Quote(path)|..] == Suffix(event);
      assert command[..|Quote(path)|] == Quote(path);
    }
    TrimQuoted(path);
    DecodeExactly(Quote(path));
  }

  lemma SuffixEndings(event: HookEvent)
    ensures var s := Suffix(event);
            |s| >= 10 && (s[|s| - 1] == 'p' <==> event == Stop) && (s[|s| - 2] == 'r' <==> event == SessionStart)
  {
  }

  /** A command is only ever read as belonging to the event it was generated for. */
  lemma CommandsKeepTheirEvent(path: string, event: HookEvent, other: HookEvent)
    requires event != other
    ensures CommandExecutable(Quote(path) + Suffix(event), other) == None
  {
    SuffixEndings(event);
    SuffixEndings(other);
    EndingsAgree(Quote(path), Suffix(event), Suffix(other));
  }

  lemma EndingsAgree(start: string, end: string, suffix: string)
    requires |end| >= 2 && |suffix| >= 2
    ensures StripSuffix(start + end, suffix).Some?
            ==> suffix[|suffix| - 1] == end[|end| - 1] && suffix[|suffix| - 2] == end[|end| - 2]
  {
    var s, k := start + end, |suffix|;
    if k <= |s| {
      var tail := s[|s| - k..];
      assert tail[k - 1] == end[|end| - 1] && tail[k - 2] == end[|end| - 2];
    }
  }
}
