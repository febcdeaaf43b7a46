/**
  Hook commands written by earlier versions or by hand (`src/hooks.rs`): double
  quotes or no quotes around the path.  They are still recognised, and what is
  recognised is owned exactly by the file name.
*/
module LegacyCommands {
  import opened Options
  import opened HookCommand
  import opened HookLists

  // ----- Reading other quotings -----

  /** A double quote in the path becomes a backslash and a double quote. */
  function EscapedDouble(s: string): string {
    if s == "" then "" else (if s[0] == '"' then ['\\', '"'] else [s[0]]) + EscapedDouble(s[1..])
  }

  lemma {:induction false} UnescapedEscaped(s: string)
    ensures Unescaped(EscapedDouble(s)) == s
  {
    if s != "" {
      var code, rest := if s[0] == '"' then ['\\', '"'] else [s[0]], EscapedDouble(s[1..]);
      UnescapedEscaped(s[1..]);
      assert EscapedDouble(s) == code + rest;
      if s[0] == '"' {
        assert (code + rest)[..2] == "\\\"" && (code + rest)[2..] == rest;
      } else {
        assert (code + rest)[1..] == rest;
        assert rest != "" ==> rest[0] != '"';
        assert !IsPrefix("\\\"", code + rest);
      }
    }
  }

  lemma {:induction false} NothingToUnescape(s: string)
    requires '"' !in s
    ensures Unescaped(s) == s
  {
    if s != "" {
      NothingToUnescape(s[1..]);
    }
  }

  lemma TrimmedAlready(s: string)
    requires s != "" && !IsWhitespace(s[0]) && !IsWhitespace(s[|s| - 1])
    ensures Trim(s) == s
  {
  }

  lemma SuffixComesOff(stem: string, event: HookEvent)
    ensures StripSuffix(stem + Suffix(event), Suffix(event)) == Some(stem)
  {
    var command := stem + Suffix(event);
    assert command[|stem|..] == Suffix(event) && command[..|stem|] == stem;
  }

  /** A path in double quotes, its own double quotes escaped, is read back, for every path and event. */
  lemma {:induction false} DoubleQuotedIsRead(path: string, event: HookEvent)
    ensures CommandExecutable(['"'] + EscapedDouble(path) + ['"'] + Suffix(event), event) == Some(path)
  {
    var quoted := ['"'] + EscapedDouble(path) + ['"'];
    SuffixComesOff(quoted, event);
    TrimmedAlready(quoted);
    assert quoted[1..|quoted| - 1] == EscapedDouble(path);
    UnescapedEscaped(path);
  }

  /** A bare path without quotes, and without white space at its ends, is read as it stands. */
  lemma BareIsRead(path: string, event: HookEvent)
    requires path != "" && '"' !in path && path[0] != '\''
    requires !IsWhitespace(path[0]) && !IsWhitespace(path[|path| - 1])
    ensures CommandExecutable(path + Suffix(event), event) == Some(path)
  {
    SuffixComesOff(path, event);
    TrimmedAlready(path);
    NothingToUnescape(path);
  }

  // ----- Whose command it is -----

  lemma {:induction false} NoSlash(p: string)
    requires '/' !in p
    ensures LastSlash(p) == -1
  {
    if p != "" {
      assert p[|p| - 1] in p;
      NoSlash(p[..|p| - 1]);
    }
  }

  lemma {:induction false} FileNameOfBare(name: string)
    requires '/' !in name && name != "" && name != "." && name != ".."
    ensures FileName(name) == Some(name)
  {
    NoSlash(name);
    assert name[0..] == name;
  }

  /** A last component of one dot is passed over, one of two dots has no file name. */
  lemma {:induction false} FileNameOfDots(directory: string)
    ensures FileName(directory + "/" + ".") == FileName(directory)
    ensures FileName(directory + "/" + "..") == None
  {
    var one, two := directory + "/" + ".", directory + "/" + "..";
    LastSlashOfJoin(directory, ".");
    LastSlashOfJoin(directory, "..");
    assert one[|directory| + 1..] == "." && one[..|directory|] == directory;
    assert two[|directory| + 1..] == "..";
  }

  ghost predicate ReadAsOwned(command: string, event: HookEvent) {
    CommandExecutable(command, event).Some? && IsOwnName(CommandExecutable(command, event).value)
  }

  /** The bare command of an owned name is recognised like any other spelling of it. */
  lemma BareCommandIsRead(name: string, command: string, event: HookEvent)
    requires name == "codex-watch" || name == "codex-5h"
    requires command == name + Suffix(event)
    ensures ReadAsOwned(command, event)
  {
    assert name[0] == 'c' && name[|name| - 1] == 'h' && '"' !in name && '/' !in name;
    BareIsRead(name, event);
    FileNameOfBare(name);
  }

  lemma BareCommands(command: string, event: HookEvent)
    requires command == "codex-watch hook " + CommandName(event) || command == "codex-5h hook " + CommandName(event)
    ensures ReadAsOwned(command, event)
  {
    var name := if command == "codex-watch hook " + CommandName(event) then "codex-watch" else "codex-5h";
    assert command == name + Suffix(event) by {
      assert "codex-watch hook " == "codex-watch" + " hook " && "codex-5h hook " == "codex-5h" + " hook ";
    }
    BareCommandIsRead(name, command, event);
  }

  /**
    A handler is owned exactly when its command is read as running some executable
    for the event, and that executable carries an owned name; comparing with the
    two bare commands adds nothing.
  */
  lemma OwnedExactly(handler: Handler, event: HookEvent)
    ensures IsOwned(handler, event) <==> handler.command.Some? && ReadAsOwned(handler.command.value, event)
  {
    if handler.command.Some? {
      var command := handler.command.value;
      if command == "codex-watch hook " + CommandName(event) || command == "codex-5h hook " + CommandName(event) {
        BareCommands(command, event);
      }
    }
  }

  /** In whatever directory, and however many slashes follow: the current name and the former one, each also with `.exe`. */
  lemma OwnNamesExactly(directory: string, name: string, slashes: nat)
    requires '/' !in name && name != "" && name != "." && name != ".."
    ensures IsOwnName(directory + "/" + name + seq(slashes, _ => '/'))
            <==> exists stem, suffix :: stem in ["codex-watch", "codex-5h"] && suffix in ["", ".exe"] && name == stem + suffix
  {
    FileNameOfJoin(directory, name, slashes);
    var stems, suffixes := ["codex-watch", "codex-5h"], ["", ".exe"];
    assert stems[0] in stems && stems[1] in stems && suffixes[0] in suffixes && suffixes[1] in suffixes;
    assert stems[0] + suffixes[0] == "codex-watch" && stems[0] + suffixes[1] == "codex-watch.exe";
    assert stems[1] + suffixes[0] == "codex-5h" && stems[1] + suffixes[1] == "codex-5h.exe";
  }
}
