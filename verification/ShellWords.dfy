/**
  How a POSIX shell splits a simple command into words: token recognition,
  single-quotes and double-quotes as in sections 2.2.2, 2.2.3 and 2.3 of the
  Shell Command Language (XCU).  A character that would start an expansion, an
  operator, an escape or a comment makes the text count as not literal.
*/
module ShellWords {
  import opened Options
  import opened HookCommand

  datatype Mode = Between | InWord(word: string) | InSingle(word: string) | InDouble(word: string)

  predicate IsBlank(c: char) { c == ' ' || c == '\t' }

  /** Characters without any meaning to the shell outside quotes. */
  predicate IsOrdinary(c: char) {
    'a' <= c <= 'z' || 'A' <= c <= 'Z' || '0' <= c <= '9' || c in "-_./"
  }

  /** One character: the new mode, and the word it completes, if any; nothing if it is not literal. */
  function Next(mode: Mode, c: char): Option<(Mode, seq<string>)> {
    match mode
    case InSingle(w) => Some((if c == '\'' then InWord(w) else InSingle(w + [c]), []))
    case InDouble(w) =>
      if c == '"' then Some((InWord(w), []))
      else if c in "$`\\" then None
      else Some((InDouble(w + [c]), []))
    case _ =>
      var w := if mode.InWord? then mode.word else "";
      if IsBlank(c) then Some((Between, if mode.InWord? then [w] else []))
      else if c == '\'' then Some((InSingle(w), []))
      else if c == '"' then Some((InDouble(w), []))
      else if IsOrdinary(c) then Some((InWord(w + [c]), []))
      else None
  }

  function Evaluate(s: string, mode: Mode, words: seq<string>): Option<seq<string>> {
    if s == [] then
      match mode
      case Between => Some(words)
      case InWord(w) => Some(words + [w])
      case _ => None
    else
      match Next(mode, s[0])
      case None => None
      case Some((next, complete)) => Evaluate(s[1..], next, words + complete)
  }

  function Words(command: string): Option<seq<string>> {
    Evaluate(command, Between, [])
  }

  lemma {:induction false} EvaluateStep(c: char, s: string, mode: Mode, words: seq<string>)
    requires Next(mode, c).Some?
    ensures Evaluate([c] + s, mode, words) == Evaluate(s, Next(mode, c).value.0, words + Next(mode, c).value.1)
  {
    assert ([c] + s)[1..] == s;
  }

  lemma {:induction false} EvaluateOne(c: char, s: string, mode: Mode, words: seq<string>)
    requires Next(mode, c).Some? && Next(mode, c).value.1 == []
    ensures Evaluate([c] + s, mode, words) == Evaluate(s, Next(mode, c).value.0, words)
  {
    EvaluateStep(c, s, mode, words);
    assert words + [] == words;
  }

  lemma {:induction false} EscapedQuoteIsOneQuote(s: string, w: string, words: seq<string>)
    ensures Evaluate(ESCAPED_SINGLE_QUOTE + s, InSingle(w), words) == Evaluate(s, InSingle(w + ['\'']), words)
  {
    var s4 := ['\''] + s;
    var s3 := ['"'] + s4;
    var s2 := ['\''] + s3;
    var s1 := ['"'] + s2;
    assert ESCAPED_SINGLE_QUOTE + s == ['\''] + s1;
    EvaluateOne('\'', s1, InSingle(w), words);
    EvaluateOne('"', s2, InWord(w), words);
    EvaluateOne('\'', s3, InDouble(w), words);
    EvaluateOne('"', s4, InDouble(w + ['\'']), words);
    EvaluateOne('\'', s, InWord(w + ['\'']), words);
  }

  /** Inside single quotes the escaped text adds exactly the text, and the last quote ends it. */
  lemma {:induction false} EscapedIsLiteral(p: string, rest: string, w: string, words: seq<string>)
    ensures Evaluate(Escaped(p) + ['\''] + rest, InSingle(w), words) == Evaluate(rest, InWord(w + p), words)
  {
    if p == [] {
      assert Escaped(p) + ['\''] + rest == ['\''] + rest && w + p == w;
      EvaluateOne('\'', rest, InSingle(w), words);
    } else {
      var tail := Escaped(p[1..]) + ['\''] + rest;
      EscapedIsLiteral(p[1..], rest, w + [p[0]], words);
      assert w + [p[0]] + p[1..] == w + p;
      if p[0] == '\'' {
        assert Escaped(p) + ['\''] + rest == ESCAPED_SINGLE_QUOTE + tail;
        EscapedQuoteIsOneQuote(tail, w, words);
      } else {
        assert Escaped(p) + ['\''] + rest == [p[0]] + tail;
        EvaluateOne(p[0], tail, InSingle(w), words);
      }
    }
  }

  lemma {:induction false} QuotedIsOneWord(p: string, rest: string, words: seq<string>)
    ensures Evaluate(Quote(p) + rest, Between, words) == Evaluate(rest, InWord(p), words)
  {
    assert Quote(p) + rest == ['\''] + (Escaped(p) + ['\''] + rest);
    EvaluateOne('\'', Escaped(p) + ['\''] + rest, Between, words);
    EscapedIsLiteral(p, rest, "", words);
    assert "" + p == p;
  }

  lemma {:induction false} OrdinaryIsLiteral(t: string, rest: string, w: string, words: seq<string>)
    requires forall c :: c in t ==> IsOrdinary(c)
    ensures Evaluate(t + rest, InWord(w), words) == Evaluate(rest, InWord(w + t), words)
  {
    if t == [] {
      assert t + rest == rest && w + t == w;
    } else {
      assert t + rest == [t[0]] + (t[1..] + rest) && w + [t[0]] + t[1..] == w + t;
      EvaluateOne(t[0], t[1..] + rest, InWord(w), words);
      OrdinaryIsLiteral(t[1..], rest, w + [t[0]], words);
    }
  }

  lemma OrdinaryStartsWord(c: char)
    requires IsOrdinary(c)
    ensures Next(Between, c) == Some((InWord([c]), []))
  {
    assert "" + [c] == [c];
    assert !IsBlank(c) && c != '\'' && c != '"';
  }

  lemma {:induction false} WordBetween(t: string, rest: string, words: seq<string>)
    requires t != [] && forall c :: c in t ==> IsOrdinary(c)
    ensures Evaluate(t + rest, Between, words) == Evaluate(rest, InWord(t), words)
  {
    var c, tail := t[0], t[1..];
    assert t == [c] + tail && t + rest == [c] + (tail + rest) && "" + [c] == [c];
    assert c in t;
    OrdinaryStartsWord(c);
    EvaluateOne(c, tail + rest, Between, words);
    OrdinaryIsLiteral(tail, rest, [c], words);
  }

  lemma {:induction false} BlankThenWord(t: string, rest: string, w: string, words: seq<string>)
    requires t != [] && forall c :: c in t ==> IsOrdinary(c)
    ensures Evaluate([' '] + t + rest, InWord(w), words) == Evaluate(rest, InWord(t), words + [w])
  {
    assert [' '] + t + rest == [' '] + (t + rest);
    EvaluateStep(' ', t + rest, InWord(w), words);
    WordBetween(t, rest, words + [w]);
  }

  /** The quoted path alone is one word, equal to the path. */
  lemma QuoteEvaluatesToPath(path: string)
    ensures Words(Quote(path)) == Some([path])
  {
    QuotedIsOneWord(path, "", []);
    assert Quote(path) + "" == Quote(path) && [] + [path] == [path];
  }

  lemma EventNameIsOrdinary(event: HookEvent)
    ensures CommandName(event) != [] && forall c :: c in CommandName(event) ==> IsOrdinary(c)
    ensures Suffix(event) == [' '] + "hook" + ([' '] + CommandName(event) + "")
  {
  }

  /** The shell runs exactly the given path with the two arguments, whatever characters the path holds. */
  lemma ShellRunsThePath(path: string, event: HookEvent)
    ensures Words(Quote(path) + Suffix(event)) == Some([path, "hook", CommandName(event)])
  {
    EventNameIsOrdinary(event);
    QuotedIsOneWord(path, Suffix(event), []);
    var name := [' '] + CommandName(event) + "";
    assert [' '] + "hook" + name == Suffix(event);
    assert [] + [path] == [path];
    BlankThenWord("hook", name, path, []);
    BlankThenWord(CommandName(event), "", "hook", [path]);
    assert [path] + ["hook"] + [CommandName(event)] == [path, "hook", CommandName(event)];
  }

  // ----- What is trimmed before a command is recognised -----

  function Leading(s: string): string {
    s[..|s| - |TrimStart(s)|]
  }

  function Trailing(s: string): string {
    s[|TrimEnd(s)|..]
  }

  ghost predicate AllBlank(s: string) {
    forall c :: c in s ==> IsBlank(c)
  }

  lemma {:induction false} TrimStartSplits(s: string)
    ensures |TrimStart(s)| <= |s| && s == Leading(s) + TrimStart(s)
    ensures forall c :: c in Leading(s) ==> IsWhitespace(c)
  {
    if s != [] && IsWhitespace(s[0]) {
      TrimStartSplits(s[1..]);
      assert Leading(s) == [s[0]] + Leading(s[1..]);
    } else {
      assert Leading(s) == [];
    }
  }

  lemma {:induction false} TrimEndSplits(s: string)
    ensures |TrimEnd(s)| <= |s| && s == TrimEnd(s) + Trailing(s)
    ensures forall c :: c in Trailing(s) ==> IsWhitespace(c)
  {
    if s != [] && IsWhitespace(s[|s| - 1]) {
      var n := |s| - 1;
      TrimEndSplits(s[..n]);
      assert Trailing(s) == Trailing(s[..n]) + [s[n]];
    } else {
      assert Trailing(s) == [];
    }
  }

  lemma OddSpaceIsNotLiteral(c: char, w: string)
    requires IsWhitespace(c) && !IsBlank(c)
    ensures Next(Between, c).None? && Next(InWord(w), c).None?
  {
  }

  /** Blanks between words mean nothing, and any other white space is not literal. */
  lemma {:induction false} SpaceBetween(space: string, rest: string, words: seq<string>)
    requires forall c :: c in space ==> IsWhitespace(c)
    ensures AllBlank(space) ==> Evaluate(space + rest, Between, words) == Evaluate(rest, Between, words)
    ensures !AllBlank(space) ==> Evaluate(space + rest, Between, words) == None
  {
    if space == [] {
      assert space + rest == rest;
    } else {
      assert space == [space[0]] + space[1..];
      assert space + rest == [space[0]] + (space[1..] + rest);
      if IsBlank(space[0]) {
        EvaluateOne(space[0], space[1..] + rest, Between, words);
        SpaceBetween(space[1..], rest, words);
      } else {
        OddSpaceIsNotLiteral(space[0], "");
        assert (space + rest)[0] == space[0];
      }
    }
  }

  lemma {:induction false} SpaceAfterWord(space: string, rest: string, w: string, words: seq<string>)
    requires space != [] && forall c :: c in space ==> IsWhitespace(c)
    ensures AllBlank(space) ==> Evaluate(space + rest, InWord(w), words) == Evaluate(rest, Between, words + [w])
    ensures !AllBlank(space) ==> Evaluate(space + rest, InWord(w), words) == None
  {
    assert space == [space[0]] + space[1..];
    assert space + rest == [space[0]] + (space[1..] + rest);
    if IsBlank(space[0]) {
      EvaluateStep(space[0], space[1..] + rest, InWord(w), words);
      SpaceBetween(space[1..], rest, words + [w]);
    } else {
      OddSpaceIsNotLiteral(space[0], w);
      assert (space + rest)[0] == space[0];
    }
  }

  /** The two arguments, after a word or after the blank that ended it. */
  lemma ArgumentsAfter(event: HookEvent, path: string)
    ensures Evaluate(Suffix(event), InWord(path), []) == Some([path, "hook", CommandName(event)])
    ensures Evaluate(Suffix(event), Between, [path]) == Some([path, "hook", CommandName(event)])
  {
    EventNameIsOrdinary(event);
    var name := [' '] + CommandName(event) + "";
    assert [' '] + "hook" + name == Suffix(event) == [' '] + ("hook" + name);
    assert [] + [path] == [path];
    BlankThenWord("hook", name, path, []);
    BlankThenWord(CommandName(event), "", "hook", [path]);
    assert [path] + ["hook"] + [CommandName(event)] == [path, "hook", CommandName(event)];
    EvaluateOne(' ', "hook" + name, Between, [path]);
    EvaluateStep(' ', "hook" + name, InWord(path), []);
  }

  lemma {:induction false} QuotedThenSpace(path: string, trail: string, event: HookEvent)
    requires forall c :: c in trail ==> IsWhitespace(c)
    ensures Evaluate(Quote(path) + (trail + Suffix(event)), Between, []) == Some([path, "hook", CommandName(event)])
            <==> AllBlank(trail)
  {
    QuotedIsOneWord(path, trail + Suffix(event), []);
    ArgumentsAfter(event, path);
    if trail == [] {
      assert trail + Suffix(event) == Suffix(event);
    } else {
      SpaceAfterWord(trail, Suffix(event), path, []);
      assert [] + [path] == [path];
    }
  }

  lemma {:induction false} QuotedBetweenSpaces(lead: string, path: string, trail: string, event: HookEvent)
    requires forall c :: c in lead + trail ==> IsWhitespace(c)
    ensures Words(lead + Quote(path) + trail + Suffix(event)) == Some([path, "hook", CommandName(event)])
            <==> AllBlank(lead) && AllBlank(trail)
  {
    var rest := trail + Suffix(event);
    assert lead + Quote(path) + trail + Suffix(event) == lead + (Quote(path) + rest);
    assert forall c :: c in lead ==> c in lead + trail;
    assert forall c :: c in trail ==> c in lead + trail;
    SpaceBetween(lead, Quote(path) + rest, []);
    QuotedThenSpace(path, trail, event);
  }

  lemma StemAndSuffix(command: string, suffix: string)
    requires StripSuffix(command, suffix).Some?
    ensures command == StripSuffix(command, suffix).value + suffix
  {
  }

  lemma {:induction false} TrimSplits(s: string)
    ensures s == Leading(s) + Trim(s) + Trailing(TrimStart(s))
    ensures forall c :: c in Leading(s) + Trailing(TrimStart(s)) ==> IsWhitespace(c)
  {
    TrimStartSplits(s);
    TrimEndSplits(TrimStart(s));
  }

  lemma ReadAsQuoted(command: string, event: HookEvent, path: string)
    requires StripSuffix(command, Suffix(event)).Some?
    requires IsEnclosed(Trim(StripSuffix(command, Suffix(event)).value), '\'')
    requires CommandExecutable(command, event) == Some(path)
    ensures Trim(StripSuffix(command, Suffix(event)).value) == Quote(path)
  {
    DecodeExactly(Trim(StripSuffix(command, Suffix(event)).value));
  }

  /**
    A single-quoted command line that is recognised, by whoever wrote it, runs
    the executable it is read as exactly when everything trimmed around the
    quotes is a space or a tab.
  */
  lemma RecognisedIsWhatRunsExactly(command: string, event: HookEvent, path: string)
    requires StripSuffix(command, Suffix(event)).Some?
    requires IsEnclosed(Trim(StripSuffix(command, Suffix(event)).value), '\'')
    requires CommandExecutable(command, event) == Some(path)
    ensures var stem := StripSuffix(command, Suffix(event)).value;
            Words(command) == Some([path, "hook", CommandName(event)])
            <==> AllBlank(Leading(stem)) && AllBlank(Trailing(TrimStart(stem)))
  {
    var stem := StripSuffix(command, Suffix(event)).value;
    TrimSplits(stem);
    ReadAsQuoted(command, event, path);
    StemAndSuffix(command, Suffix(event));
    QuotedBetweenSpaces(Leading(stem), path, Trailing(TrimStart(stem)), event);
  }

  lemma StripsBack(stem: string, suffix: string)
    ensures StripSuffix(stem + suffix, suffix) == Some(stem)
  {
    assert (stem + suffix)[|stem|..] == suffix && (stem + suffix)[..|stem|] == stem;
  }

  lemma {:induction false} LeadIsTrimmed(lead: string, path: string)
    requires forall c :: c in lead ==> IsWhitespace(c)
    ensures Trim(lead + Quote(path)) == Quote(path)
  {
    if lead == [] {
      assert lead + Quote(path) == Quote(path);
      TrimQuoted(path);
    } else {
      assert (lead + Quote(path))[0] == lead[0] && (lead + Quote(path))[1..] == lead[1..] + Quote(path);
      LeadIsTrimmed(lead[1..], path);
    }
  }

  lemma TrimmedIsRead(stem: string, path: string, event: HookEvent)
    requires Trim(stem) == Quote(path)
    ensures CommandExecutable(stem + Suffix(event), event) == Some(path)
  {
    StripsBack(stem, Suffix(event));
    DecodeExactly(Quote(path));
  }

  lemma OddLeadIsNotLiteral(lead: string, quoted: string, suffix: string)
    requires (forall c :: c in lead ==> IsWhitespace(c)) && !AllBlank(lead)
    ensures Words(lead + quoted + suffix) == None
  {
    assert lead + quoted + suffix == lead + (quoted + suffix);
    SpaceBetween(lead, quoted + suffix, []);
  }

  /** White space other than blanks before the quotes is trimmed, but the shell takes it as part of another word. */
  lemma OddLeadIsNotRun(lead: string, path: string, event: HookEvent)
    requires (forall c :: c in lead ==> IsWhitespace(c)) && !AllBlank(lead)
    ensures var command := lead + Quote(path) + Suffix(event);
            CommandExecutable(command, event) == Some(path) && Words(command) == None
  {
    LeadIsTrimmed(lead, path);
    TrimmedIsRead(lead + Quote(path), path, event);
    OddLeadIsNotLiteral(lead, Quote(path), Suffix(event));
  }

  /** For instance a no-break space. */
  lemma NoBreakSpaceIsNotRun(path: string, event: HookEvent)
    ensures var command := ['\U{00A0}'] + Quote(path) + Suffix(event);
            CommandExecutable(command, event) == Some(path) && Words(command) == None
  {
    var lead := ['\U{00A0}'];
    assert lead[0] in lead && !IsBlank(lead[0]);
    OddLeadIsNotRun(lead, path, event);
  }
}
