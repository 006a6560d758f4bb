/** Subcommand dispatch (src/structures/Command.ts): a table from `group/command` names to
    handlers, and the handler that looks the invoked subcommand up in it. */
module Subcommands {
  import opened Wrappers

  /** What the dispatcher reads of an interaction: whether it is a slash (chat-input) command,
      and its subcommand group and subcommand. */
  datatype Interaction = Interaction(isChatInputCommand: bool, group: Option<string>, command: string)

  /** The options every handler receives; `args` stands for the parsed command options. */
  datatype ExecuteOptions<A> = ExecuteOptions(interaction: Interaction, args: A)

  /** One entry of the list given to `newSubcommandHandler`. */
  datatype SubcommandHandler<E> = SubcommandHandler(name: string, execute: E)

  const SlashOnlyError := "Subcommands are only available with SlashCommands!"
  const InternalErrorReply := "Internal error, let the developer know."

  /** `useSubcommands`: throws for anything but a slash command, otherwise gives the group and
      the subcommand. */
  function UseSubcommands(i: Interaction): (r: Result<(Option<string>, string), string>)
    ensures r.Failure? <==> !i.isChatInputCommand
    ensures r.Failure? ==> r.error == SlashOnlyError
    ensures r.Success? ==> r.value.0 == i.group && r.value.1 == i.command
  {
    if !i.isChatInputCommand then Failure(SlashOnlyError) else Success((i.group, i.command))
  }

  /** `group || ""`: an absent or empty group both read as the empty string. */
  function GroupText(group: Option<string>): string {
    if group.Some? then group.value else ""
  }

  /** The key under which a subcommand's handler is looked up: `${group || ""}/${command}`. */
  function DispatchKey(group: Option<string>, command: string): (key: string)
    ensures |key| == |GroupText(group)| + 1 + |command|
    ensures key[|GroupText(group)|] == '/'
    ensures key[..|GroupText(group)|] == GroupText(group) && key[|GroupText(group)| + 1..] == command
  {
    GroupText(group) + "/" + command
  }

  /** A subcommand without a group is looked up under "/" followed by its name. */
  lemma UngroupedKey(command: string)
    ensures DispatchKey(None, command) == "/" + command
    ensures DispatchKey(Some(""), command) == "/" + command
  {
  }

  /** Since a group name holds no '/', the key gives back the group and the subcommand: two
      subcommands share a key only if they are the same. */
  lemma DispatchKeyInjective(g1: Option<string>, c1: string, g2: Option<string>, c2: string)
    requires '/' !in GroupText(g1) && '/' !in GroupText(g2)
    requires DispatchKey(g1, c1) == DispatchKey(g2, c2)
    ensures GroupText(g1) == GroupText(g2) && c1 == c2
  {
  }

  /** The table `newSubcommandHandler` builds with `Map.set` over the list in order: a later
      handler of the same name replaces an earlier one. */
  ghost function HandlerMap<E>(handlers: seq<SubcommandHandler<E>>): map<string, E> {
    if handlers == [] then map[]
    else
      var last := handlers[|handlers| - 1];
      HandlerMap(handlers[..|handlers| - 1])[last.name := last.execute]
  }

  /** The last handler of that name in the list. */
  ghost predicate IsLastNamed<E>(handlers: seq<SubcommandHandler<E>>, i: int, name: string) {
    0 <= i < |handlers| && handlers[i].name == name &&
    forall j | i < j < |handlers| :: handlers[j].name != name
  }

  /** The table holds exactly the names in the list, each bound to the last handler of that
      name. */
  lemma {:induction false} HandlerMapLastWins<E>(handlers: seq<SubcommandHandler<E>>)
    ensures forall name :: name in HandlerMap(handlers) <==> exists i | 0 <= i < |handlers| :: handlers[i].name == name
    ensures forall name | name in HandlerMap(handlers) ::
              exists i :: IsLastNamed(handlers, i, name) && HandlerMap(handlers)[name] == handlers[i].execute
  {
    if handlers != [] {
      var n := |handlers| - 1;
      var init := handlers[..n];
      HandlerMapLastWins(init);
      forall name ensures name in HandlerMap(handlers) <==> exists i | 0 <= i < |handlers| :: handlers[i].name == name
      {
        if i :| 0 <= i < |handlers| && handlers[i].name == name {
          if i < n {
            assert init[i].name == name;
          }
        }
        if name in HandlerMap(init) {
          var i :| 0 <= i < |init| && init[i].name == name;
          assert handlers[i].name == name;
        }
      }
      forall name | name in HandlerMap(handlers)
        ensures exists i :: IsLastNamed(handlers, i, name) && HandlerMap(handlers)[name] == handlers[i].execute
      {
        if name == handlers[n].name {
          assert IsLastNamed(handlers, n, name);
        } else {
          var i :| IsLastNamed(init, i, name) && HandlerMap(init)[name] == init[i].execute;
          assert IsLastNamed(handlers, i, name);
        }
      }
    }
  }

  /** `newSubcommandHandler`'s loop: every handler is set in list order. */
  method NewSubcommandTable<E>(handlers: seq<SubcommandHandler<E>>) returns (table: map<string, E>)
    ensures table == HandlerMap(handlers)
    ensures forall name :: name in table <==> exists i | 0 <= i < |handlers| :: handlers[i].name == name
    ensures forall name | name in table :: exists i :: IsLastNamed(handlers, i, name) && table[name] == handlers[i].execute
  {
    table := map[];
    for i := 0 to |handlers|
      invariant table == HandlerMap(handlers[..i])
    {
      assert handlers[..i + 1][..i] == handlers[..i];
      table := table[handlers[i].name := handlers[i].execute];
    }
    assert handlers[..|handlers|] == handlers;
    HandlerMapLastWins(handlers);
  }

  /** What one call of the returned `Handler` does: `useSubcommands` throws, or no handler is
      found (an error is logged, the user gets the internal-error reply and the result is
      null), or the handler found runs on the same options and its result is returned. */
  datatype Dispatched<R> =
    | NotSlashCommand(error: string)
    | NoHandler(logged: string, reply: string)
    | Handled(result: R)

  /** The returned `Handler`, with the table built by newSubcommandHandler and `run` giving the
      result of running a handler on the options. */
  function Dispatch<A, E, R>(table: map<string, E>, run: (E, ExecuteOptions<A>) -> R, options: ExecuteOptions<A>): (d: Dispatched<R>)
    ensures d.NotSlashCommand? <==> !options.interaction.isChatInputCommand
    ensures d.NotSlashCommand? ==> d.error == SlashOnlyError
    ensures var key := DispatchKey(options.interaction.group, options.interaction.command);
            && (d.NoHandler? <==> options.interaction.isChatInputCommand && key !in table)
            && (d.NoHandler? ==> d.reply == InternalErrorReply && d.logged == "No handler defined for " + key + "!")
            && (d.Handled? ==> key in table && d.result == run(table[key], options))
  {
    match UseSubcommands(options.interaction)
    case Failure(e) => NotSlashCommand(e)
    case Success((group, command)) =>
      var name := DispatchKey(group, command);
      if name !in table then
        NoHandler("No handler defined for " + name + "!", InternalErrorReply)
      else
        Handled(run(table[name], options))
  }

  /** Dispatching through the table of a handler list runs the last handler in the list whose
      name is the interaction's key, and nothing when no handler has that name. */
  lemma DispatchRunsLastNamed<A, E, R>(handlers: seq<SubcommandHandler<E>>, run: (E, ExecuteOptions<A>) -> R, options: ExecuteOptions<A>)
    requires options.interaction.isChatInputCommand
    ensures var key := DispatchKey(options.interaction.group, options.interaction.command);
            var d := Dispatch(HandlerMap(handlers), run, options);
            && ((forall i | 0 <= i < |handlers| :: handlers[i].name != key) <==> d.NoHandler?)
            && (forall i | IsLastNamed(handlers, i, key) :: d == Handled(run(handlers[i].execute, options)))
  {
    var key := DispatchKey(options.interaction.group, options.interaction.command);
    HandlerMapLastWins(handlers);
    forall i | IsLastNamed(handlers, i, key)
      ensures Dispatch(HandlerMap(handlers), run, options) == Handled(run(handlers[i].execute, options))
    {
      var j :| IsLastNamed(handlers, j, key) && HandlerMap(handlers)[key] == handlers[j].execute;
      assert i == j;
    }
  }
}
