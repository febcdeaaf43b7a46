/**
  Which handlers of the hooks file belong to the program, and how the list of one
  event is rewritten (`is_owned_handler` and `remove_owned_handlers` in
  `src/hooks.rs`).  The remaining JSON of a handler or group is kept as one
  opaque value.
*/
module HookLists {
  import opened Options
  import opened HookCommand

  /** `command` is present only if it is a string. */
  datatype Handler = Handler(command: Option<string>, kind: Option<string>, timeout: Option<nat>, rest: string)

  /** `hooks` is present only if it is an array. */
  datatype Group = Group(hooks: Option<seq<Handler>>, rest: string)

  // ----- File names -----

  function LastSlash(p: string): (k: int)
    ensures -1 <= k < |p|
  {
    if p == [] then -1 else if p[|p| - 1] == '/' then |p| - 1 else LastSlash(p[..|p| - 1])
  }

  /** `Path::file_name`: the last component, looking past trailing slashes and dots. */
  function FileName(p: string): Option<string>
    decreases |p|
  {
    var k := LastSlash(p);
    var component := p[k + 1..];
    if component == "" || component == "." then (if k < 0 then None else FileName(p[..k]))
    else if component == ".." then None
    else Some(component)
  }

  lemma {:induction false} LastSlashOfJoin(directory: string, name: string)
    requires '/' !in name
    ensures LastSlash(directory + "/" + name) == |directory|
  {
    var p := directory + "/" + name;
    if name == [] {
      assert p[|p| - 1] == '/';
    } else {
      assert p[..|p| - 1] == directory + "/" + name[..|name| - 1];
      LastSlashOfJoin(directory, name[..|name| - 1]);
    }
  }

  /** The file name of a joined path is the name joined last, however many slashes follow it. */
  lemma {:induction false} FileNameOfJoin(directory: string, name: string, slashes: nat)
    requires '/' !in name && name != "" && name != "." && name != ".."
    ensures FileName(directory + "/" + name + seq(slashes, _ => '/')) == Some(name)
  {
    var p := directory + "/" + name + seq(slashes, _ => '/');
    if slashes == 0 {
      assert p == directory + "/" + name;
      LastSlashOfJoin(directory, name);
    } else {
      assert p[|p| - 1] == '/';
      assert p[..|p| - 1] == directory + "/" + name + seq(slashes - 1, _ => '/');
      FileNameOfJoin(directory, name, slashes - 1);
    }
  }

  // ----- Ownership -----

  const OWNED_NAMES: set<string> := {"codex-watch", "codex-watch.exe", "codex-5h", "codex-5h.exe"}

  predicate IsOwnName(executable: string) {
    FileName(executable).Some? && FileName(executable).value in OWNED_NAMES
  }

  predicate IsOwned(handler: Handler, event: HookEvent) {
    match handler.command
    case None => false
    case Some(command) =>
      || command == "codex-watch hook " + CommandName(event)
      || command == "codex-5h hook " + CommandName(event)
      || (var executable := CommandExecutable(command, event);
          executable.Some? && IsOwnName(executable.value))
  }

  const HOOK_TIMEOUT_SECONDS: nat := 5

  function NewHandler(command: string): Handler {
    Handler(Some(command), Some("command"), Some(HOOK_TIMEOUT_SECONDS), "Updating local usage watch")
  }

  function NewGroup(command: string): Group {
    Group(Some([NewHandler(command)]), "")
  }

  /** A generated handler is recognised as owned exactly when the executable carries an owned name. */
  lemma GeneratedIsOwnedExactly(path: string, event: HookEvent)
    ensures IsOwned(NewHandler(Quote(path) + Suffix(event)), event) <==> IsOwnName(path)
  {
    var command := Quote(path) + Suffix(event);
    CommandRoundTrip(path, event);
    assert command[0] == '\'';
  }

  /** It is never taken for a handler of another event. */
  lemma GeneratedIsNotOwnedElsewhere(path: string, event: HookEvent, other: HookEvent)
    requires event != other
    ensures !IsOwned(NewHandler(Quote(path) + Suffix(event)), other)
  {
    var command := Quote(path) + Suffix(event);
    CommandsKeepTheirEvent(path, event, other);
    assert command[0] == '\'';
  }

  // ----- Removing owned handlers -----

  function Unowned(handlers: seq<Handler>, event: HookEvent): seq<Handler> {
    if handlers == [] then []
    else
      var init := Unowned(handlers[..|handlers| - 1], event);
      if IsOwned(handlers[|handlers| - 1], event) then init else init + [handlers[|handlers| - 1]]
  }

  function Strip(g: Group, event: HookEvent): Group {
    match g.hooks
    case None => g
    case Some(handlers) => g.(hooks := Some(Unowned(handlers, event)))
  }

  /** A group without a hooks array stays; one with an empty array goes. */
  predicate IsKept(g: Group) {
    g.hooks.None? || g.hooks.value != []
  }

  function Cleaned(groups: seq<Group>, event: HookEvent): seq<Group> {
    if groups == [] then []
    else
      var init, g := Cleaned(groups[..|groups| - 1], event), Strip(groups[|groups| - 1], event);
      if IsKept(g) then init + [g] else init
  }

  function Kept(groups: seq<Group>): seq<Group> {
    if groups == [] then []
    else
      var init := Kept(groups[..|groups| - 1]);
      if IsKept(groups[|groups| - 1]) then init + [groups[|groups| - 1]] else init
  }

  method RetainUnowned(handlers: seq<Handler>, event: HookEvent) returns (r: seq<Handler>)
    ensures r == Unowned(handlers, event)
  {
    r := [];
    for i := 0 to |handlers|
      invariant r == Unowned(handlers[..i], event)
    {
      assert handlers[..i + 1][..i] == handlers[..i];
      if !IsOwned(handlers[i], event) {
        r := r + [handlers[i]];
      }
    }
    assert handlers[..|handlers|] == handlers;
  }

  lemma {:induction false} KeptStripped(groups: seq<Group>, stripped: seq<Group>, event: HookEvent)
    requires |stripped| == |groups| && forall k :: 0 <= k < |groups| ==> stripped[k] == Strip(groups[k], event)
    ensures Kept(stripped) == Cleaned(groups, event)
  {
    if groups != [] {
      var n := |groups| - 1;
      KeptStripped(groups[..n], stripped[..n], event);
    }
  }

  /** First every group is stripped in place, then the emptied groups are dropped. */
  method RemoveOwnedHandlers(groups: seq<Group>, event: HookEvent) returns (r: seq<Group>)
    ensures r == Cleaned(groups, event)
  {
    var stripped := groups;
    for i := 0 to |groups|
      invariant |stripped| == |groups|
      invariant forall k :: 0 <= k < i ==> stripped[k] == Strip(groups[k], event)
      invariant forall k :: i <= k < |groups| ==> stripped[k] == groups[k]
    {
      if stripped[i].hooks.Some? {
        var handlers := RetainUnowned(stripped[i].hooks.value, event);
        stripped := stripped[i := stripped[i].(hooks := Some(handlers))];
      }
    }
    KeptStripped(groups, stripped, event);
    r := [];
    for i := 0 to |stripped|
      invariant r == Kept(stripped[..i])
    {
      assert stripped[..i + 1][..i] == stripped[..i];
      if IsKept(stripped[i]) {
        r := r + [stripped[i]];
      }
    }
    assert stripped[..|stripped|] == stripped;
  }

  function InstallGroups(groups: seq<Group>, event: HookEvent, command: string): seq<Group> {
    Cleaned(groups, event) + [NewGroup(command)]
  }

  // ----- What the rewriting preserves -----

  /** One visible entry of the list: a handler with the fields of its group, or a group without handlers. */
  datatype Item = Item(groupRest: string, handler: Option<Handler>)

  function GroupItems(rest: string, handlers: seq<Handler>): seq<Item> {
    if handlers == [] then []
    else GroupItems(rest, handlers[..|handlers| - 1]) + [Item(rest, Some(handlers[|handlers| - 1]))]
  }

  function ItemsOf(g: Group): seq<Item> {
    match g.hooks
    case None => [Item(g.rest, None)]
    case Some(handlers) => GroupItems(g.rest, handlers)
  }

  function Items(groups: seq<Group>): seq<Item> {
    if groups == [] then [] else Items(groups[..|groups| - 1]) + ItemsOf(groups[|groups| - 1])
  }

  predicate IsForeign(i: Item, event: HookEvent) {
    i.handler.None? || !IsOwned(i.handler.value, event)
  }

  function Foreign(items: seq<Item>, event: HookEvent): seq<Item> {
    if items == [] then []
    else
      var init := Foreign(items[..|items| - 1], event);
      if IsForeign(items[|items| - 1], event) then init + [items[|items| - 1]] else init
  }

  function OwnedCount(items: seq<Item>, event: HookEvent): nat {
    |items| - ForeignCount(items, event)
  }

  function ForeignCount(items: seq<Item>, event: HookEvent): (n: nat)
    ensures n == |Foreign(items, event)| <= |items|
  {
    if items == [] then 0
    else ForeignCount(items[..|items| - 1], event) + (if IsForeign(items[|items| - 1], event) then 1 else 0)
  }

  lemma {:induction false} ForeignJoin(a: seq<Item>, b: seq<Item>, event: HookEvent)
    ensures Foreign(a + b, event) == Foreign(a, event) + Foreign(b, event)
  {
    if b == [] {
      assert a + b == a;
    } else {
      ForeignJoin(a, b[..|b| - 1], event);
      assert (a + b)[..|a + b| - 1] == a + b[..|b| - 1];
    }
  }

  lemma {:induction false} StrippedItems(rest: string, handlers: seq<Handler>, event: HookEvent)
    ensures GroupItems(rest, Unowned(handlers, event)) == Foreign(GroupItems(rest, handlers), event)
  {
    if handlers != [] {
      var init, h := handlers[..|handlers| - 1], handlers[|handlers| - 1];
      StrippedItems(rest, init, event);
      assert (Unowned(init, event) + [h])[..|Unowned(init, event)|] == Unowned(init, event);
      assert (GroupItems(rest, init) + [Item(rest, Some(h))])[..|GroupItems(rest, init)|] == GroupItems(rest, init);
    }
  }

  lemma {:induction false} ItemsAppend(groups: seq<Group>, g: Group)
    ensures Items(groups + [g]) == Items(groups) + ItemsOf(g)
  {
    assert (groups + [g])[..|groups|] == groups;
  }

  lemma {:induction false} StripKeepsForeign(g: Group, event: HookEvent)
    ensures ItemsOf(Strip(g, event)) == Foreign(ItemsOf(g), event)
    ensures !IsKept(Strip(g, event)) ==> ItemsOf(Strip(g, event)) == []
  {
    if g.hooks.Some? {
      StrippedItems(g.rest, g.hooks.value, event);
    } else {
      assert ItemsOf(g)[..0] == [];
    }
  }

  /**
    Removal keeps exactly the foreign entries, each with its group's fields, in
    their order, and nothing else.
  */
  lemma {:induction false} RemovalKeepsForeign(groups: seq<Group>, event: HookEvent)
    ensures Items(Cleaned(groups, event)) == Foreign(Items(groups), event)
  {
    if groups != [] {
      var init, g := groups[..|groups| - 1], groups[|groups| - 1];
      RemovalKeepsForeign(init, event);
      StripKeepsForeign(g, event);
      ForeignJoin(Items(init), ItemsOf(g), event);
      ItemsAppend(Cleaned(init, event), Strip(g, event));
    }
  }

  /** A group survives removal exactly when it has no hooks array or a foreign handler in it. */
  predicate Survives(g: Group, event: HookEvent) {
    g.hooks.None? || exists h :: h in g.hooks.value && !IsOwned(h, event)
  }

  function Survivors(groups: seq<Group>, event: HookEvent): seq<Group> {
    if groups == [] then []
    else
      var init := Survivors(groups[..|groups| - 1], event);
      if Survives(groups[|groups| - 1], event) then init + [groups[|groups| - 1]] else init
  }

  lemma {:induction false} UnownedExactly(handlers: seq<Handler>, event: HookEvent)
    ensures forall h :: h in Unowned(handlers, event) <==> h in handlers && !IsOwned(h, event)
  {
    if handlers != [] {
      UnownedExactly(handlers[..|handlers| - 1], event);
      assert handlers == handlers[..|handlers| - 1] + [handlers[|handlers| - 1]];
    }
  }

  lemma SurvivesExactly(g: Group, event: HookEvent)
    ensures Survives(g, event) <==> IsKept(Strip(g, event))
  {
    if g.hooks.Some? {
      var rest := Unowned(g.hooks.value, event);
      UnownedExactly(g.hooks.value, event);
      assert rest != [] ==> rest[0] in rest;
    }
  }

  /** The remaining groups are the surviving ones, in order, each without its owned handlers. */
  lemma {:induction false} RemovalKeepsSurvivors(groups: seq<Group>, event: HookEvent)
    ensures |Cleaned(groups, event)| == |Survivors(groups, event)|
    ensures forall k :: 0 <= k < |Cleaned(groups, event)| ==>
                          Cleaned(groups, event)[k] == Strip(Survivors(groups, event)[k], event)
  {
    if groups != [] {
      RemovalKeepsSurvivors(groups[..|groups| - 1], event);
      SurvivesExactly(groups[|groups| - 1], event);
    }
  }

  lemma {:induction false} UnownedTwice(handlers: seq<Handler>, event: HookEvent)
    ensures Unowned(Unowned(handlers, event), event) == Unowned(handlers, event)
  {
    if handlers != [] {
      var init, h := handlers[..|handlers| - 1], handlers[|handlers| - 1];
      UnownedTwice(init, event);
      assert (Unowned(init, event) + [h])[..|Unowned(init, event)|] == Unowned(init, event);
    }
  }

  lemma {:induction false} CleanedAppend(groups: seq<Group>, g: Group, event: HookEvent)
    ensures Cleaned(groups + [g], event)
            == if IsKept(Strip(g, event)) then Cleaned(groups, event) + [Strip(g, event)] else Cleaned(groups, event)
  {
    assert (groups + [g])[..|groups|] == groups;
  }

  lemma StripTwice(g: Group, event: HookEvent)
    ensures Strip(Strip(g, event), event) == Strip(g, event)
  {
    if g.hooks.Some? {
      UnownedTwice(g.hooks.value, event);
    }
  }

  /** A second removal changes nothing. */
  lemma {:induction false} RemovalIdempotent(groups: seq<Group>, event: HookEvent)
    ensures Cleaned(Cleaned(groups, event), event) == Cleaned(groups, event)
  {
    if groups != [] {
      var init, g := groups[..|groups| - 1], groups[|groups| - 1];
      RemovalIdempotent(init, event);
      StripTwice(g, event);
      CleanedAppend(Cleaned(init, event), Strip(g, event), event);
    }
  }

  lemma NewGroupIsKeptExactly(command: string, event: HookEvent)
    ensures IsKept(Strip(NewGroup(command), event)) <==> !IsOwned(NewHandler(command), event)
    ensures !IsOwned(NewHandler(command), event) ==> Strip(NewGroup(command), event) == NewGroup(command)
    ensures ItemsOf(NewGroup(command)) == [Item("", Some(NewHandler(command)))]
  {
    assert [NewHandler(command)][..0] == [] && [] + [NewHandler(command)] == [NewHandler(command)];
    assert Unowned([], event) == [];
    assert GroupItems("", []) == [];
  }

  lemma {:induction false} RemoveAfterInstall(groups: seq<Group>, event: HookEvent, command: string)
    ensures Cleaned(InstallGroups(groups, event, command), event)
            == if IsOwned(NewHandler(command), event) then Cleaned(groups, event)
               else Cleaned(groups, event) + [NewGroup(command)]
  {
    RemovalIdempotent(groups, event);
    CleanedAppend(Cleaned(groups, event), NewGroup(command), event);
    NewGroupIsKeptExactly(command, event);
  }

  /** Removing after installing equals removing at once, exactly when the new handler is recognised. */
  lemma {:induction false} RemoveUndoesInstallExactly(groups: seq<Group>, event: HookEvent, command: string)
    ensures Cleaned(InstallGroups(groups, event, command), event) == Cleaned(groups, event)
            <==> IsOwned(NewHandler(command), event)
  {
    RemoveAfterInstall(groups, event, command);
    assert |Cleaned(groups, event) + [NewGroup(command)]| != |Cleaned(groups, event)|;
  }

  /** Installing twice equals installing once, exactly when the new handler is recognised. */
  lemma InstallIdempotentExactly(groups: seq<Group>, event: HookEvent, command: string)
    ensures InstallGroups(InstallGroups(groups, event, command), event, command) == InstallGroups(groups, event, command)
            <==> IsOwned(NewHandler(command), event)
  {
    RemoveAfterInstall(groups, event, command);
    assert |Cleaned(groups, event) + [NewGroup(command)] + [NewGroup(command)]| != |InstallGroups(groups, event, command)|;
  }

  /** After installing, the list holds what was foreign before and then the new handler. */
  lemma {:induction false} InstallAppendsOne(groups: seq<Group>, event: HookEvent, command: string)
    ensures Items(InstallGroups(groups, event, command))
            == Foreign(Items(groups), event) + [Item("", Some(NewHandler(command)))]
  {
    RemovalKeepsForeign(groups, event);
    ItemsAppend(Cleaned(groups, event), NewGroup(command));
    NewGroupIsKeptExactly(command, event);
  }

  lemma {:induction false} ForeignTwice(items: seq<Item>, event: HookEvent)
    ensures Foreign(Foreign(items, event), event) == Foreign(items, event)
  {
    if items != [] {
      var init, i := items[..|items| - 1], items[|items| - 1];
      ForeignTwice(init, event);
      assert (Foreign(init, event) + [i])[..|Foreign(init, event)|] == Foreign(init, event);
    }
  }

  /** Exactly one handler is the program's after installing an executable with an owned name, else none is. */
  lemma OneOwnedHandler(groups: seq<Group>, event: HookEvent, path: string)
    ensures OwnedCount(Items(InstallGroups(groups, event, Quote(path) + Suffix(event))), event)
            == if IsOwnName(path) then 1 else 0
  {
    var command := Quote(path) + Suffix(event);
    var before, item := Foreign(Items(groups), event), Item("", Some(NewHandler(command)));
    InstallAppendsOne(groups, event, command);
    GeneratedIsOwnedExactly(path, event);
    ForeignTwice(Items(groups), event);
    assert (before + [item])[..|before|] == before;
  }
}
