/**
  * The command registry of the gator CLI (gator/internal/cli/command.go): a
  * table from command names to handlers that `Register` fills, creating it
  * on first use, and `Run` dispatches through.
  *
  * A handler is a function of the program state and the command that
  * returns the new state and an optional error message; the database and
  * configuration the Go handlers change through their `*State` argument are
  * the state value here.
  */
module GatorCommands {
  import opened Wrappers

  /** A command line: the command name and its arguments. */
  datatype Command = Command(name: string, args: seq<string>)

  /** A handler: the new state and the error it returns, if any. */
  type Handler<!S> = (S, Command) -> (S, Option<string>)

  /** The registered handlers; a table that was never created (Go's nil map) has none. */
  function Registered<S>(handlers: Option<map<string, Handler<S>>>): map<string, Handler<S>> {
    if handlers.Some? then handlers.value else map[]
  }

  /** The message of the error for a name nobody registered. */
  function UnknownCommand(name: string): string {
    "unknown command: " + name
  }

  class Commands<S> {
    var handlers: Option<map<string, Handler<S>>>

    /** `&cli.Commands{}`: the zero value, whose map is nil. */
    constructor ()
      ensures handlers == None
    {
      handlers := None;
    }

    /** Registers `f` under `name`, creating the table when it is nil; an earlier handler of that name is replaced. */
    method Register(name: string, f: Handler<S>)
      modifies this
      ensures handlers == Some(Registered(old(handlers))[name := f])
    {
      if handlers.None? {
        handlers := Some(map[]);
      }
      handlers := Some(handlers.value[name := f]);
    }

    /** Runs the handler registered under the command's name. */
    method Run(s: S, cmd: Command) returns (s': S, err: Option<string>)
      ensures cmd.name !in Registered(handlers) ==> s' == s && err == Some(UnknownCommand(cmd.name))
      ensures cmd.name in Registered(handlers) ==> (s', err) == Registered(handlers)[cmd.name](s, cmd)
    {
      if handlers.None? || cmd.name !in handlers.value {
        return s, Some(UnknownCommand(cmd.name));
      }
      var handler := handlers.value[cmd.name];
      var outcome := handler(s, cmd);
      s', err := outcome.0, outcome.1;
    }
  }

  /** The table a run of `Register` calls builds from a nil one, one registration after the other. */
  function RegisterAll<S>(registrations: seq<(string, Handler<S>)>): map<string, Handler<S>> {
    if registrations == [] then map[]
    else
      var (name, f) := registrations[|registrations| - 1];
      RegisterAll(registrations[..|registrations| - 1])[name := f]
  }

  /** The index of the last registration of `name`, if there is one. */
  function LastRegistration<S>(registrations: seq<(string, Handler<S>)>, name: string): (r: Option<nat>)
    ensures r.None? <==> forall i | 0 <= i < |registrations| :: registrations[i].0 != name
    ensures r.Some? ==>
      && r.value < |registrations|
      && registrations[r.value].0 == name
      && forall i | r.value < i < |registrations| :: registrations[i].0 != name
  {
    if registrations == [] then None
    else if registrations[|registrations| - 1].0 == name then Some(|registrations| - 1)
    else LastRegistration(registrations[..|registrations| - 1], name)
  }

  /**
    * The last registration wins: a name is registered exactly when some
    * registration used it, and its handler is the one of the last such
    * registration (main.go registers "agg" twice).
    */
  lemma {:induction false} LastRegistrationWins<S>(registrations: seq<(string, Handler<S>)>, name: string)
    ensures name in RegisterAll(registrations) <==> LastRegistration(registrations, name).Some?
    ensures name in RegisterAll(registrations) ==>
      RegisterAll(registrations)[name] == registrations[LastRegistration(registrations, name).value].1
  {
    if registrations != [] {
      LastRegistrationWins(registrations[..|registrations| - 1], name);
    }
  }
}
