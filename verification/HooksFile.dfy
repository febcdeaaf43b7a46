/**
  The hooks file as a whole (`install_hooks`, `uninstall_hooks` and
  `validate_installed_hooks` in `src/hooks.rs`).
*/
module HooksFile {
  import opened Options
  import opened HookCommand
  import opened HookLists

  datatype EventValue = Groups(groups: seq<Group>) | NotAnArray(json: string)

  datatype HooksValue = Events(events: map<string, EventValue>) | NotAnEventMap(json: string)

  /** `rest` stands for the other members of the root object. */
  datatype Contents =
    | Absent
    | NotAnObject(json: string)
    | Root(hooks: Option<HooksValue>, rest: string)

  function WireName(event: HookEvent): string {
    match event
    case SessionStart => "SessionStart"
    case UserPromptSubmit => "UserPromptSubmit"
    case Stop => "Stop"
  }

  const ALL_EVENTS: seq<HookEvent> := [SessionStart, UserPromptSubmit, Stop]

  lemma EveryEventIsListed(event: HookEvent)
    ensures event in ALL_EVENTS
  {
    assert ALL_EVENTS[0] == SessionStart && ALL_EVENTS[1] == UserPromptSubmit && ALL_EVENTS[2] == Stop;
  }

  /** The list of an event; an absent or malformed one reads as empty. */
  function ListOf(events: map<string, EventValue>, event: HookEvent): seq<Group> {
    if WireName(event) in events && events[WireName(event)].Groups? then events[WireName(event)].groups else []
  }

  function EventsOf(c: Contents): map<string, EventValue> {
    if c.Root? && c.hooks.Some? && c.hooks.value.Events? then c.hooks.value.events else map[]
  }

  // ----- Install -----

  predicate IsMalformed(events: map<string, EventValue>, event: HookEvent) {
    WireName(event) in events && events[WireName(event)].NotAnArray?
  }

  ghost predicate NoneMalformed(events: map<string, EventValue>) {
    forall e :: !IsMalformed(events, e)
  }

  function InstallEvent(events: map<string, EventValue>, executable: ExecutablePath, event: HookEvent)
    : Result<map<string, EventValue>, HookError>
  {
    if IsMalformed(events, event) then Failure(InvalidHooksFile)
    else
      match GenerateCommand(executable, event)
      case Failure(e) => Failure(e)
      case Success(command) =>
        Success(events[WireName(event) := Groups(InstallGroups(ListOf(events, event), event, command))])
  }

  function InstallEvents(events: map<string, EventValue>, executable: ExecutablePath, todo: seq<HookEvent>)
    : Result<map<string, EventValue>, HookError>
    decreases |todo|
  {
    if todo == [] then Success(events)
    else
      match InstallEvent(events, executable, todo[0])
      case Failure(e) => Failure(e)
      case Success(next) => InstallEvents(next, executable, todo[1..])
  }

  function Installed(c: Contents, confirm: bool, executable: ExecutablePath): Result<Contents, HookError> {
    if !confirm then Failure(ConfirmationRequired)
    else if c.NotAnObject? || (c.Root? && c.hooks.Some? && c.hooks.value.NotAnEventMap?) then Failure(InvalidHooksFile)
    else
      match InstallEvents(EventsOf(c), executable, ALL_EVENTS)
      case Failure(e) => Failure(e)
      case Success(events) => Success(Root(Some(Events(events)), if c.Root? then c.rest else ""))
  }

  // ----- Uninstall -----

  function UninstallEvent(events: map<string, EventValue>, event: HookEvent): map<string, EventValue> {
    if WireName(event) in events && events[WireName(event)].Groups?
    then events[WireName(event) := Groups(Cleaned(ListOf(events, event), event))] else events
  }

  function UninstallEvents(events: map<string, EventValue>, todo: seq<HookEvent>): map<string, EventValue> {
    if todo == [] then events else UninstallEvents(UninstallEvent(events, todo[0]), todo[1..])
  }

  function Uninstalled(c: Contents, confirm: bool): Result<Contents, HookError> {
    if !confirm then Failure(ConfirmationRequired)
    else if c.NotAnObject? then Failure(InvalidHooksFile)
    else if c.Root? && c.hooks.Some? && c.hooks.value.Events? then
      Success(Root(Some(Events(UninstallEvents(c.hooks.value.events, ALL_EVENTS))), c.rest))
    else Success(c)
  }

  class HooksFile {
    var contents: Contents

    constructor (c: Contents)
      ensures contents == c
    {
      contents := c;
    }

    /** A failure leaves the file as it was. */
    method Install(confirm: bool, executable: ExecutablePath) returns (r: Result<(), HookError>)
      modifies this
      ensures match Installed(old(contents), confirm, executable)
              case Success(after) => r == Success(()) && contents == after
              case Failure(e) => r == Failure(e) && contents == old(contents)
    {
      if !confirm {
        return Failure(ConfirmationRequired);
      }
      if contents.NotAnObject? || (contents.Root? && contents.hooks.Some? && contents.hooks.value.NotAnEventMap?) {
        return Failure(InvalidHooksFile);
      }
      var events := EventsOf(contents);
      var rest := if contents.Root? then contents.rest else "";
      ghost var result := InstallEvents(events, executable, ALL_EVENTS);
      for i := 0 to |ALL_EVENTS|
        invariant InstallEvents(events, executable, ALL_EVENTS[i..]) == result
        invariant contents == old(contents)
      {
        var event := ALL_EVENTS[i];
        assert ALL_EVENTS[i..][1..] == ALL_EVENTS[i + 1..];
        if WireName(event) in events && events[WireName(event)].NotAnArray? {
          return Failure(InvalidHooksFile);
        }
        var groups := if WireName(event) in events then events[WireName(event)].groups else [];
        var command := GenerateCommand(executable, event);
        if command.Failure? {
          return Failure(command.error);
        }
        var cleaned := RemoveOwnedHandlers(groups, event);
        events := events[WireName(event) := Groups(cleaned + [NewGroup(command.value)])];
      }
      contents := Root(Some(Events(events)), rest);
      r := Success(());
    }

    method Uninstall(confirm: bool) returns (r: Result<(), HookError>)
      modifies this
      ensures match Uninstalled(old(contents), confirm)
              case Success(after) => r == Success(()) && contents == after
              case Failure(e) => r == Failure(e) && contents == old(contents)
    {
      if !confirm {
        return Failure(ConfirmationRequired);
      }
      if contents.NotAnObject? {
        return Failure(InvalidHooksFile);
      }
      if contents.Absent? || contents.hooks.None? || contents.hooks.value.NotAnEventMap? {
        return Success(());
      }
      var events := contents.hooks.value.events;
      ghost var result := UninstallEvents(events, ALL_EVENTS);
      for i := 0 to |ALL_EVENTS|
        invariant UninstallEvents(events, ALL_EVENTS[i..]) == result
        invariant contents == old(contents)
      {
        var event := ALL_EVENTS[i];
        assert ALL_EVENTS[i..][1..] == ALL_EVENTS[i + 1..];
        if WireName(event) in events && events[WireName(event)].Groups? {
          var cleaned := RemoveOwnedHandlers(events[WireName(event)].groups, event);
          events := events[WireName(event) := Groups(cleaned)];
        }
      }
      contents := Root(Some(Events(events)), contents.rest);
      r := Success(());
    }
  }

  // ----- What happens to each event -----

  /** No entry other than the listed ones is touched. */
  ghost predicate SameElsewhere(a: map<string, EventValue>, b: map<string, EventValue>, todo: seq<HookEvent>) {
    forall name :: (forall e :: e in todo ==> WireName(e) != name) ==> SameAt(a, b, name)
  }

  predicate SameAt(a: map<string, EventValue>, b: map<string, EventValue>, name: string) {
    (name in a <==> name in b) && (name in a ==> a[name] == b[name])
  }

  lemma ElsewhereThenMore(a: map<string, EventValue>, b: map<string, EventValue>, c: map<string, EventValue>,
                          todo: seq<HookEvent>)
    requires todo != [] && SameElsewhere(b, c, todo[1..])
    requires forall name :: name != WireName(todo[0]) ==> SameAt(a, b, name)
    ensures SameElsewhere(a, c, todo)
  {
    forall name | forall e :: e in todo ==> WireName(e) != name ensures SameAt(a, c, name) {
      assert todo[0] in todo && SameAt(a, b, name);
      assert forall e :: e in todo[1..] ==> e in todo;
      assert SameAt(b, c, name);
    }
  }

  ghost predicate Distinct(todo: seq<HookEvent>) {
    forall i, j :: 0 <= i < j < |todo| ==> todo[i] != todo[j]
  }

  function CommandOf(path: string, event: HookEvent): string {
    Quote(path) + Suffix(event)
  }

  lemma WireNamesDiffer(a: HookEvent, b: HookEvent)
    ensures WireName(a) == WireName(b) ==> a == b
  {
    assert "Stop"[1] != "SessionStart"[1];
  }

  ghost predicate InstalledAt(before: map<string, EventValue>, after: map<string, EventValue>, path: string,
                              event: HookEvent)
  {
    && WireName(event) in after
    && after[WireName(event)] == Groups(InstallGroups(ListOf(before, event), event, CommandOf(path, event)))
  }

  /** The whole effect of an install on the event map. */
  ghost predicate EachInstalled(before: map<string, EventValue>, after: map<string, EventValue>, path: string,
                                todo: seq<HookEvent>)
  {
    SameElsewhere(before, after, todo) && forall e :: e in todo ==> InstalledAt(before, after, path, e)
  }

  lemma {:induction false} InstallEventsExactly(events: map<string, EventValue>, path: string, todo: seq<HookEvent>)
    requires Distinct(todo)
    ensures var r := InstallEvents(events, Text(path), todo);
            && (r.Success? <==> forall e :: e in todo ==> !IsMalformed(events, e))
            && (r.Success? ==> EachInstalled(events, r.value, path, todo))
            && (r.Failure? ==> r.error == InvalidHooksFile)
    decreases |todo|
  {
    if todo != [] {
      var first, more := todo[0], todo[1..];
      if !IsMalformed(events, first) {
        var next := events[WireName(first) := Groups(InstallGroups(ListOf(events, first), first, CommandOf(path, first)))];
        InstallEventsExactly(next, path, more);
        forall e | e in more
          ensures WireName(e) != WireName(first) && ListOf(next, e) == ListOf(events, e)
          ensures IsMalformed(next, e) == IsMalformed(events, e)
        {
          WireNamesDiffer(e, first);
        }
        assert todo == [first] + more;
        var r := InstallEvents(next, Text(path), more);
        if r.Success? {
          ElsewhereThenMore(events, next, r.value, todo);
          assert SameAt(next, r.value, WireName(first));
        }
      }
    }
  }

  ghost predicate UninstalledAt(before: map<string, EventValue>, after: map<string, EventValue>, event: HookEvent) {
    && ListOf(after, event) == Cleaned(ListOf(before, event), event)
    && (WireName(event) in before <==> WireName(event) in after)
    && (IsMalformed(before, event) ==> IsMalformed(after, event) && after[WireName(event)] == before[WireName(event)])
  }

  ghost predicate EachUninstalled(before: map<string, EventValue>, after: map<string, EventValue>,
                                  todo: seq<HookEvent>)
  {
    SameElsewhere(before, after, todo) && forall e :: e in todo ==> UninstalledAt(before, after, e)
  }

  lemma UninstallEventExactly(events: map<string, EventValue>, event: HookEvent)
    ensures UninstalledAt(events, UninstallEvent(events, event), event)
    ensures forall name :: name != WireName(event) ==> SameAt(events, UninstallEvent(events, event), name)
  {
    assert Cleaned([], event) == [];
  }

  lemma UninstallFirstThenMore(events: map<string, EventValue>, next: map<string, EventValue>,
                               after: map<string, EventValue>, first: HookEvent, e: HookEvent)
    requires UninstalledAt(events, next, first)
    requires forall name :: name != WireName(first) ==> SameAt(events, next, name)
    requires e == first ==> SameAt(next, after, WireName(first))
    requires e != first ==> UninstalledAt(next, after, e)
    ensures UninstalledAt(events, after, e)
  {
    WireNamesDiffer(e, first);
    assert e != first ==> SameAt(events, next, WireName(e));
  }

  lemma {:induction false} UninstallEventsExactly(events: map<string, EventValue>, todo: seq<HookEvent>)
    requires Distinct(todo)
    ensures EachUninstalled(events, UninstallEvents(events, todo), todo)
  {
    if todo != [] {
      var first, more := todo[0], todo[1..];
      var next, after := UninstallEvent(events, first), UninstallEvents(events, todo);
      assert todo == [first] + more;
      UninstallEventsExactly(next, more);
      UninstallEventExactly(events, first);
      assert SameAt(next, after, WireName(first)) by {
        forall e | e in more ensures WireName(e) != WireName(first) {
          WireNamesDiffer(e, first);
        }
      }
      forall e | e in todo ensures UninstalledAt(events, after, e) {
        UninstallFirstThenMore(events, next, after, first, e);
      }
      ElsewhereThenMore(events, next, after, todo);
    }
  }

  /** Installing succeeds exactly when confirmed, with a printable path, on a file of the expected shape. */
  lemma InstallSucceedsExactly(c: Contents, confirm: bool, executable: ExecutablePath)
    ensures Installed(c, confirm, executable).Success?
            <==> && confirm && executable.Text? && !c.NotAnObject?
                 && !(c.Root? && c.hooks.Some? && c.hooks.value.NotAnEventMap?)
                 && NoneMalformed(EventsOf(c))
    ensures Installed(c, confirm, executable).Success? ==>
              EachInstalled(EventsOf(c), EventsOf(Installed(c, confirm, executable).value), executable.path, ALL_EVENTS)
  {
    forall e ensures e in ALL_EVENTS { EveryEventIsListed(e); }
    if executable.Text? {
      InstallEventsExactly(EventsOf(c), executable.path, ALL_EVENTS);
    }
  }

  predicate HasWrongShape(c: Contents) {
    c.NotAnObject? || (c.Root? && c.hooks.Some? && c.hooks.value.NotAnEventMap?)
  }

  /**
    Why an install fails: it was not confirmed, or else the file or one of its
    lists has the wrong shape, or else the path is not Unicode; the lists after
    the first are not looked at for such a path.
  */
  lemma InstallFailsExactly(c: Contents, confirm: bool, executable: ExecutablePath)
    requires Installed(c, confirm, executable).Failure?
    ensures var e := Installed(c, confirm, executable).error;
            && (e == ConfirmationRequired <==> !confirm)
            && (e == UnsafeExecutablePath <==>
                  confirm && executable.NotUnicode? && !HasWrongShape(c) && !IsMalformed(EventsOf(c), SessionStart))
            && (e == InvalidHooksFile <==>
                  confirm && (HasWrongShape(c) || IsMalformed(EventsOf(c), SessionStart)
                              || (executable.Text? && !NoneMalformed(EventsOf(c)))))
  {
    InstallSucceedsExactly(c, confirm, executable);
    if executable.Text? {
      InstallEventsExactly(EventsOf(c), executable.path, ALL_EVENTS);
    } else {
      assert ALL_EVENTS[0] == SessionStart;
    }
  }

  /**
    After installing an executable with an owned name, each event has exactly one
    handler of the program, and all foreign entries, in order, with their group fields.
  */
  lemma {:induction false} InstallLeavesOneEach(c: Contents, path: string, event: HookEvent)
    requires Installed(c, true, Text(path)).Success?
    ensures var before := ListOf(EventsOf(c), event);
            var after := ListOf(EventsOf(Installed(c, true, Text(path)).value), event);
            && OwnedCount(Items(after), event) == (if IsOwnName(path) then 1 else 0)
            && Items(after)
               == Foreign(Items(before), event) + [Item("", Some(NewHandler(CommandOf(path, event))))]
  {
    InstallSucceedsExactly(c, true, Text(path));
    EveryEventIsListed(event);
    OneOwnedHandler(ListOf(EventsOf(c), event), event, path);
    InstallAppendsOne(ListOf(EventsOf(c), event), event, CommandOf(path, event));
  }

  lemma InstalledShape(c: Contents, path: string)
    requires Installed(c, true, Text(path)).Success?
    ensures var r := Installed(c, true, Text(path)).value;
            && r == Root(Some(Events(EventsOf(r))), if c.Root? then c.rest else "")
            && EachInstalled(EventsOf(c), EventsOf(r), path, ALL_EVENTS)
            && NoneMalformed(EventsOf(r))
  {
    InstallSucceedsExactly(c, true, Text(path));
    var r := Installed(c, true, Text(path)).value;
    forall e: HookEvent ensures !IsMalformed(EventsOf(r), e) {
      EveryEventIsListed(e);
      assert InstalledAt(EventsOf(c), EventsOf(r), path, e);
    }
  }

  lemma InstallTwiceAt(before: map<string, EventValue>, once: map<string, EventValue>, twice: map<string, EventValue>,
                       path: string, e: HookEvent)
    requires InstalledAt(before, once, path, e) && InstalledAt(once, twice, path, e)
    ensures once[WireName(e)] == twice[WireName(e)] <==> IsOwnName(path)
  {
    InstallIdempotentExactly(ListOf(before, e), e, CommandOf(path, e));
    GeneratedIsOwnedExactly(path, e);
  }

  lemma InstallMapsTwice(before: map<string, EventValue>, once: map<string, EventValue>, twice: map<string, EventValue>,
                         path: string)
    requires EachInstalled(before, once, path, ALL_EVENTS) && EachInstalled(once, twice, path, ALL_EVENTS)
    ensures once == twice <==> IsOwnName(path)
  {
    forall e: HookEvent
      ensures WireName(e) in once && WireName(e) in twice
      ensures once[WireName(e)] == twice[WireName(e)] <==> IsOwnName(path)
    {
      EveryEventIsListed(e);
      InstallTwiceAt(before, once, twice, path, e);
    }
    if IsOwnName(path) {
      SameEvents(once, twice);
    } else {
      assert once[WireName(Stop)] != twice[WireName(Stop)];
    }
  }

  /** Installing again changes nothing exactly when the executable carries an owned name. */
  lemma InstallTwiceExactly(c: Contents, path: string)
    requires Installed(c, true, Text(path)).Success?
    ensures var once := Installed(c, true, Text(path)).value;
            && Installed(once, true, Text(path)).Success?
            && (Installed(once, true, Text(path)).value == once <==> IsOwnName(path))
  {
    var once := Installed(c, true, Text(path)).value;
    InstalledShape(c, path);
    InstallSucceedsExactly(once, true, Text(path));
    InstalledShape(once, path);
    InstallMapsTwice(EventsOf(c), EventsOf(once), EventsOf(Installed(once, true, Text(path)).value), path);
  }

  lemma SameEvents(a: map<string, EventValue>, b: map<string, EventValue>)
    requires SameElsewhere(a, b, ALL_EVENTS)
    requires forall e: HookEvent :: WireName(e) in a && WireName(e) in b && a[WireName(e)] == b[WireName(e)]
    ensures a == b
  {
    forall name ensures (name in a <==> name in b) && (name in a ==> a[name] == b[name]) {
      assert SameAt(a, b, name) || exists e :: e in ALL_EVENTS && WireName(e) == name;
    }
  }

  /**
    Uninstalling after installing leaves each event list as uninstalling at once
    would exactly when the executable carries an owned name; the rest of the file
    is untouched in any case.
  */
  lemma UninstallUndoesInstallExactly(c: Contents, path: string, event: HookEvent)
    requires Installed(c, true, Text(path)).Success?
    ensures var installed := Installed(c, true, Text(path)).value;
            && Uninstalled(installed, true).Success? && Uninstalled(c, true).Success?
            && var back, direct := Uninstalled(installed, true).value, Uninstalled(c, true).value;
            && (ListOf(EventsOf(back), event) == ListOf(EventsOf(direct), event) <==> IsOwnName(path))
            && SameElsewhere(EventsOf(direct), EventsOf(back), ALL_EVENTS)
            && (c.Root? ==> back.rest == direct.rest == c.rest)
  {
    var installed := Installed(c, true, Text(path)).value;
    InstalledShape(c, path);
    UninstallEach(c);
    UninstallEach(installed);
    var back, direct := Uninstalled(installed, true).value, Uninstalled(c, true).value;
    UninstallMapsAgree(EventsOf(c), EventsOf(installed), EventsOf(back), EventsOf(direct), path, event);
  }

  /** Uninstalling works on the event map, if there is one. */
  lemma EventsAfterUninstall(c: Contents)
    requires !c.NotAnObject?
    ensures Uninstalled(c, true).Success?
    ensures EventsOf(Uninstalled(c, true).value) == UninstallEvents(EventsOf(c), ALL_EVENTS)
    ensures c.Root? ==> Uninstalled(c, true).value.Root? && Uninstalled(c, true).value.rest == c.rest
  {
    NothingToUninstall(ALL_EVENTS);
  }

  lemma UninstallEach(c: Contents)
    requires !c.NotAnObject?
    ensures Uninstalled(c, true).Success?
    ensures EachUninstalled(EventsOf(c), EventsOf(Uninstalled(c, true).value), ALL_EVENTS)
    ensures c.Root? ==> Uninstalled(c, true).value.Root? && Uninstalled(c, true).value.rest == c.rest
  {
    EventsAfterUninstall(c);
    UninstallEventsExactly(EventsOf(c), ALL_EVENTS);
  }

  lemma {:induction false} NothingToUninstall(todo: seq<HookEvent>)
    ensures UninstallEvents(map[], todo) == map[]
  {
    if todo != [] {
      NothingToUninstall(todo[1..]);
    }
  }

  lemma UninstallMapsAgree(before: map<string, EventValue>, installed: map<string, EventValue>,
                           back: map<string, EventValue>, direct: map<string, EventValue>, path: string,
                           event: HookEvent)
    requires EachInstalled(before, installed, path, ALL_EVENTS)
    requires EachUninstalled(installed, back, ALL_EVENTS) && EachUninstalled(before, direct, ALL_EVENTS)
    ensures ListOf(back, event) == ListOf(direct, event) <==> IsOwnName(path)
    ensures SameElsewhere(direct, back, ALL_EVENTS)
  {
    EveryEventIsListed(event);
    ListsAgree(before, installed, back, direct, path, event);
    SameElsewhereJoins(direct, before, installed, back, ALL_EVENTS);
  }

  lemma ListsAgree(before: map<string, EventValue>, installed: map<string, EventValue>, back: map<string, EventValue>,
                   direct: map<string, EventValue>, path: string, event: HookEvent)
    requires ListOf(installed, event) == InstallGroups(ListOf(before, event), event, CommandOf(path, event))
    requires UninstalledAt(before, direct, event) && UninstalledAt(installed, back, event)
    ensures ListOf(back, event) == ListOf(direct, event) <==> IsOwnName(path)
  {
    GeneratedIsOwnedExactly(path, event);
    RemoveUndoesInstallExactly(ListOf(before, event), event, CommandOf(path, event));
  }

  lemma SameElsewhereJoins(direct: map<string, EventValue>, before: map<string, EventValue>,
                           installed: map<string, EventValue>, back: map<string, EventValue>, todo: seq<HookEvent>)
    requires SameElsewhere(before, direct, todo)
    requires SameElsewhere(before, installed, todo)
    requires SameElsewhere(installed, back, todo)
    ensures SameElsewhere(direct, back, todo)
  {
    forall name | forall e :: e in todo ==> WireName(e) != name ensures SameAt(direct, back, name) {
      assert SameAt(before, installed, name) && SameAt(before, direct, name) && SameAt(installed, back, name);
    }
  }

  // ----- Validation -----

  ghost predicate IsExpected(i: Item, event: HookEvent, expected: string, canonical: string -> string) {
    && i.handler.Some?
    && i.handler.value.kind == Some("command") && i.handler.value.timeout == Some(HOOK_TIMEOUT_SECONDS)
    && i.handler.value.command.Some?
    && var executable := CommandExecutable(i.handler.value.command.value, event);
       executable.Some? && canonical(executable.value) == canonical(expected)
  }

  /** `canonical` stands for path canonicalisation with its fallback. */
  ghost predicate Validates(c: Contents, expected: string, canonical: string -> string) {
    forall event: HookEvent :: HasExpected(ListOf(EventsOf(c), event), event, expected, canonical)
  }

  ghost predicate HasExpected(groups: seq<Group>, event: HookEvent, expected: string, canonical: string -> string) {
    exists i :: i in Items(groups) && IsExpected(i, event, expected, canonical)
  }

  /** A fresh installation validates, whatever the path and however paths are canonicalised. */
  lemma InstalledValidates(c: Contents, path: string, canonical: string -> string)
    requires Installed(c, true, Text(path)).Success?
    ensures Validates(Installed(c, true, Text(path)).value, path, canonical)
  {
    var after := EventsOf(Installed(c, true, Text(path)).value);
    forall event: HookEvent ensures HasExpected(ListOf(after, event), event, path, canonical) {
      InstallLeavesOneEach(c, path, event);
      CommandRoundTrip(path, event);
      var item := Item("", Some(NewHandler(CommandOf(path, event))));
      assert item in Items(ListOf(after, event)) && IsExpected(item, event, path, canonical);
    }
  }

  lemma {:induction false} ForeignExactly(items: seq<Item>, event: HookEvent, i: Item)
    ensures i in Foreign(items, event) <==> i in items && IsForeign(i, event)
  {
    if items != [] {
      ForeignExactly(items[..|items| - 1], event, i);
      assert items == items[..|items| - 1] + [items[|items| - 1]];
    }
  }

  /** A foreign entry of the list is what validation looks for. */
  ghost predicate HasForeignExpected(groups: seq<Group>, event: HookEvent, expected: string, canonical: string -> string) {
    exists i :: i in Items(groups) && IsForeign(i, event) && IsExpected(i, event, expected, canonical)
  }

  lemma {:induction false} ExpectedAfterRemoval(before: seq<Group>, after: seq<Group>, event: HookEvent, expected: string,
                             canonical: string -> string)
    requires after == Cleaned(before, event)
    ensures HasExpected(after, event, expected, canonical) <==> HasForeignExpected(before, event, expected, canonical)
  {
    RemovalKeepsForeign(before, event);
    if HasExpected(after, event, expected, canonical) {
      var i :| i in Items(after) && IsExpected(i, event, expected, canonical);
      ForeignExactly(Items(before), event, i);
      assert i in Items(before) && IsForeign(i, event);
    }
    if HasForeignExpected(before, event, expected, canonical) {
      var i :| i in Items(before) && IsForeign(i, event) && IsExpected(i, event, expected, canonical);
      ForeignExactly(Items(before), event, i);
      assert i in Items(after);
    }
  }

  /** After uninstalling, the file still validates exactly when each event has a foreign entry that is expected. */
  lemma UninstalledValidatesExactly(c: Contents, expected: string, canonical: string -> string)
    requires Uninstalled(c, true).Success?
    ensures Validates(Uninstalled(c, true).value, expected, canonical)
            <==> forall event: HookEvent :: HasForeignExpected(ListOf(EventsOf(c), event), event, expected, canonical)
  {
    var after := Uninstalled(c, true).value;
    UninstallEach(c);
    forall event: HookEvent
      ensures HasExpected(ListOf(EventsOf(after), event), event, expected, canonical)
              <==> HasForeignExpected(ListOf(EventsOf(c), event), event, expected, canonical)
    {
      EveryEventIsListed(event);
      assert UninstalledAt(EventsOf(c), EventsOf(after), event);
      ExpectedAfterRemoval(ListOf(EventsOf(c), event), ListOf(EventsOf(after), event), event, expected, canonical);
    }
  }

  /** So no path validates all of whose aliases carry an owned name. */
  lemma UninstalledDoesNotValidate(c: Contents, expected: string, canonical: string -> string)
    requires Uninstalled(c, true).Success?
    requires forall p :: canonical(p) == canonical(expected) ==> IsOwnName(p)
    ensures !Validates(Uninstalled(c, true).value, expected, canonical)
  {
    UninstalledValidatesExactly(c, expected, canonical);
    assert !HasForeignExpected(ListOf(EventsOf(c), Stop), Stop, expected, canonical);
  }
}
