/**
  What an installed hook does when it fires (`src/hooks.rs`): the host looks up
  the list of an event by its name, the shell splits the command found there into
  words, and the program parses the last word back into an event.
*/
module HookRuns {
  import opened Options
  import opened HookCommand
  import opened HookLists
  import opened HooksFile
  import ShellWords

  // ----- The two spellings of an event -----

  predicate IsUpper(c: char) { 'A' <= c <= 'Z' }

  function Lower(c: char): char { if IsUpper(c) then (c as int + 32) as char else c }

  /** Every capital becomes a hyphen and its small letter. */
  function Hyphenated(s: string): string {
    if s == "" then "" else (if IsUpper(s[0]) then ['-', Lower(s[0])] else [s[0]]) + Hyphenated(s[1..])
  }

  /** From `PascalCase` to `kebab-case`. */
  function Kebab(name: string): string {
    if name == "" then "" else [Lower(name[0])] + Hyphenated(name[1..])
  }

  lemma {:induction false} SmallLettersStay(word: string, rest: string)
    requires Small(word)
    ensures Hyphenated(word + rest) == word + Hyphenated(rest)
  {
    if word == "" {
      assert word + rest == rest;
    } else {
      assert (word + rest)[0] == word[0] && (word + rest)[1..] == word[1..] + rest;
      SmallLettersStay(word[1..], rest);
    }
  }

  ghost predicate Small(word: string) {
    forall c :: c in word ==> !IsUpper(c)
  }

  /** `kebab[j..]` continues a word of `name` from `i` on: the small letters up to the next capital agree. */
  ghost predicate SameLetters(name: string, kebab: string, i: nat, end: nat, j: nat) {
    && i <= end <= |name| && j + (end - i) <= |kebab|
    && forall k :: i <= k < end ==> !IsUpper(name[k]) && kebab[j + (k - i)] == name[k]
  }

  /** The capital at `i` and the small letters after it, up to `end`, are a hyphen and a word at `j`. */
  ghost predicate HyphenAndWord(name: string, kebab: string, i: nat, end: nat, j: nat) {
    && i < end && j + 1 < |kebab|
    && SameLetters(name, kebab, i + 1, end, j + 2)
    && IsUpper(name[i]) && kebab[j] == '-' && kebab[j + 1] == Lower(name[i])
  }

  lemma {:induction false} WordAt(name: string, kebab: string, i: nat, end: nat, j: nat)
    requires SameLetters(name, kebab, i, end, j)
    requires Hyphenated(name[end..]) == kebab[j + (end - i)..]
    ensures Hyphenated(name[i..]) == kebab[j..]
  {
    var word := name[i..end];
    SmallLettersStay(word, name[end..]);
    assert name[i..] == word + name[end..];
    assert kebab[j..] == word + kebab[j + (end - i)..];
  }

  lemma {:induction false} HyphenAt(name: string, kebab: string, i: nat, end: nat, j: nat)
    requires HyphenAndWord(name, kebab, i, end, j)
    requires Hyphenated(name[end..]) == kebab[j + (end - i) + 1..]
    ensures Hyphenated(name[i..]) == kebab[j..]
  {
    WordAt(name, kebab, i + 1, end, j + 2);
    assert name[i..][0] == name[i] && name[i..][1..] == name[i + 1..];
    assert kebab[j..] == [kebab[j], kebab[j + 1]] + kebab[j + 2..];
  }

  lemma {:induction false} FirstWordAt(name: string, kebab: string, end: nat)
    requires name != "" && kebab != "" && kebab[0] == Lower(name[0])
    requires SameLetters(name, kebab, 1, end, 1) && Hyphenated(name[end..]) == kebab[end..]
    ensures Kebab(name) == kebab
  {
    WordAt(name, kebab, 1, end, 1);
    assert kebab == [kebab[0]] + kebab[1..];
  }

  lemma SessionStartIsKebab(name: string, kebab: string)
    requires name == "SessionStart" && kebab == "session-start"
    ensures Kebab(name) == kebab
  {
    HyphenAt(name, kebab, 7, 12, 7);
    FirstWordAt(name, kebab, 7);
  }

  ghost predicate AreUserPromptSubmit(name: string, kebab: string) {
    name == "UserPromptSubmit" && kebab == "user-prompt-submit"
  }

  lemma SubmitPart(name: string, kebab: string)
    requires AreUserPromptSubmit(name, kebab)
    ensures HyphenAndWord(name, kebab, 10, 16, 11) && name[16..] == kebab[18..] == []
  {
  }

  lemma PromptPart(name: string, kebab: string)
    requires AreUserPromptSubmit(name, kebab)
    ensures HyphenAndWord(name, kebab, 4, 10, 4) && |kebab| == 18
  {
  }

  lemma UserPart(name: string, kebab: string)
    requires AreUserPromptSubmit(name, kebab)
    ensures name != "" && kebab != "" && kebab[0] == Lower(name[0]) && SameLetters(name, kebab, 1, 4, 1)
  {
  }

  lemma JoinUserPromptSubmit(name: string, kebab: string)
    requires |name| == 16 && |kebab| == 18 && name[16..] == kebab[18..] == []
    requires HyphenAndWord(name, kebab, 10, 16, 11) && HyphenAndWord(name, kebab, 4, 10, 4)
    requires kebab[0] == Lower(name[0]) && SameLetters(name, kebab, 1, 4, 1)
    ensures Kebab(name) == kebab
  {
    HyphenAt(name, kebab, 10, 16, 11);
    HyphenAt(name, kebab, 4, 10, 4);
    FirstWordAt(name, kebab, 4);
  }

  lemma UserPromptSubmitIsKebab(name: string, kebab: string)
    requires AreUserPromptSubmit(name, kebab)
    ensures Kebab(name) == kebab
  {
    SubmitPart(name, kebab);
    PromptPart(name, kebab);
    UserPart(name, kebab);
    JoinUserPromptSubmit(name, kebab);
  }

  lemma StopIsKebab(name: string, kebab: string)
    requires name == "Stop" && kebab == "stop"
    ensures Kebab(name) == kebab
  {
    FirstWordAt(name, kebab, 4);
  }

  /** The word on the command line is the kebab-case form of the name in the file, for every event. */
  lemma CommandNameIsKebab(event: HookEvent)
    ensures CommandName(event) == Kebab(WireName(event))
  {
    match event {
      case SessionStart => SessionStartIsKebab(WireName(event), CommandName(event));
      case UserPromptSubmit => UserPromptSubmitIsKebab(WireName(event), CommandName(event));
      case Stop => StopIsKebab(WireName(event), CommandName(event));
    }
  }

  lemma CommandNamesDiffer(a: HookEvent, b: HookEvent)
    ensures CommandName(a) == CommandName(b) ==> a == b
  {
    SuffixEndings(a);
    SuffixEndings(b);
  }

  /** A word is parsed as an event exactly when it is that event's command-line word. */
  lemma ParseExactly(value: string, event: HookEvent)
    ensures ParseEvent(value) == Some(event) <==> value == CommandName(event)
  {
    forall other: HookEvent | CommandName(other) == CommandName(event) ensures other == event {
      CommandNamesDiffer(other, event);
    }
    assert CommandName(SessionStart) == "session-start" && CommandName(UserPromptSubmit) == "user-prompt-submit";
    assert CommandName(Stop) == "stop";
  }

  // ----- From the list to the event -----

  const EVENT_NAMES: set<string> := {"SessionStart", "UserPromptSubmit", "Stop"}

  /** The last group of a list runs these words and nothing else. */
  predicate LastGroupRuns(groups: seq<Group>, words: seq<string>) {
    && groups != []
    && var last := groups[|groups| - 1];
       && last.hooks.Some? && |last.hooks.value| == 1
       && var handler := last.hooks.value[0];
          && handler.kind == Some("command") && handler.command.Some?
          && ShellWords.Words(handler.command.value) == Some(words)
  }

  /** The list of a name after an install, and what the program makes of being run from it. */
  ghost predicate RunsForItself(events: map<string, EventValue>, path: string, name: string) {
    && name in events && events[name].Groups?
    && LastGroupRuns(events[name].groups, [path, "hook", Kebab(name)])
    && ParseEvent(Kebab(name)).Some? && WireName(ParseEvent(Kebab(name)).value) == name
  }

  lemma NamesAreEvents(name: string)
    ensures name in EVENT_NAMES <==> exists event: HookEvent :: WireName(event) == name
  {
    assert WireName(SessionStart) == "SessionStart" && WireName(UserPromptSubmit) == "UserPromptSubmit";
    assert WireName(Stop) == "Stop";
  }

  /**
    After an install, the last group in the list of each of the three names, and
    of no other name that the install touched, runs the installed executable with
    the word that is parsed as the event of that very list.
  */
  lemma {:induction false} InstalledRunsItself(c: Contents, path: string, name: string)
    requires Installed(c, true, Text(path)).Success?
    ensures var before, after := EventsOf(c), EventsOf(Installed(c, true, Text(path)).value);
            if name in EVENT_NAMES then RunsForItself(after, path, name) else SameAt(before, after, name)
  {
    var before, after := EventsOf(c), EventsOf(Installed(c, true, Text(path)).value);
    InstallSucceedsExactly(c, true, Text(path));
    NamesAreEvents(name);
    if name in EVENT_NAMES {
      var event: HookEvent :| WireName(event) == name;
      EveryEventIsListed(event);
      assert InstalledAt(before, after, path, event);
      ListRuns(ListOf(before, event), path, event);
      ParseExactly(Kebab(name), event);
    }
  }

  lemma ListRuns(groups: seq<Group>, path: string, event: HookEvent)
    ensures LastGroupRuns(InstallGroups(groups, event, CommandOf(path, event)), [path, "hook", Kebab(WireName(event))])
    ensures Kebab(WireName(event)) == CommandName(event)
  {
    CommandNameIsKebab(event);
    ShellWords.ShellRunsThePath(path, event);
  }

  /** What validation looks for among handlers with the generated command is the generated handler, status text aside. */
  lemma ExpectedIsGenerated(h: Handler, rest: string, path: string, event: HookEvent, canonical: string -> string)
    requires h.command == Some(CommandOf(path, event))
    ensures IsExpected(Item(rest, Some(h)), event, path, canonical)
            <==> h == NewHandler(CommandOf(path, event)).(rest := h.rest)
  {
    CommandRoundTrip(path, event);
  }
}
