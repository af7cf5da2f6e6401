/** `Sushi.prototype.run` end to end: resolve the command, build the
    shared request, and run the middleware chain over it. The argument
    parser is outside the model, so a run takes the raw argv together
    with what the parser made of it. */
module Sushi {
  import opened Request
  import opened Registry
  import opened Resolution
  import opened Chain

  /** The request a run starts from. Only the parsed positional list loses
      the routed token; `argv` is passed through untouched, and the context
      starts empty. */
  function InitialRequest<H, E>(app: App<H, E>, argv: seq<string>, parsed: Args): (q: Req<H>)
    ensures q.argv == argv && q.context == map[] && q.args.flags == parsed.flags
    ensures q.options == OptionsOf(app.commandOptions, q.name)
    ensures FirstTokenMatches(app.commands, parsed.positional) ==> q.name == parsed.positional[0]
    ensures !FirstTokenMatches(app.commands, parsed.positional) ==> q.name == Index
    ensures q.name != Index ==> parsed.positional == [q.name] + q.args.positional
    ensures q.name == Index ==> q.args.positional == parsed.positional
    ensures q.command.Some? <==> Registered(app.commands, q.name)
    ensures q.command.Some? ==> app.commands[q.name] == q.command
  {
    var res := Resolve(app.commands, app.commandOptions, parsed.positional);
    Req(res.command, res.options, map[], argv, Args(res.positional, parsed.flags), res.name)
  }

  /** One run. The registered state is an input and not an output, so the
      run works on a copy and leaves the registration untouched. */
  function Run<H, E>(app: App<H, E>, argv: seq<string>, parsed: Args, invoke: (H, Req<H>) -> Req<H>): (r: Report<H, E>)
    ensures |r.emitted| <= 1
    ensures r.emitted != [] ==> !r.crashed && Exec !in r.trace
    ensures r.emitted == [] ==> r.trace == Labels(0, |app.middleware|) + [Exec]
  {
    Dispatch(app.middleware, InitialRequest(app, argv, parsed), invoke)
  }

  /** When no middleware reports an error and none replaces the command,
      a run whose first token names a registered command calls exactly that
      handler, once, as its last step, and emits nothing. */
  lemma RunCallsResolvedCommand<H, E>(app: App<H, E>, argv: seq<string>, parsed: Args,
                                      invoke: (H, Req<H>) -> Req<H>)
    requires FirstTokenMatches(app.commands, parsed.positional)
    requires var q := InitialRequest(app, argv, parsed);
             forall j :: 0 <= j < |app.middleware| ==> ErrorAt(app.middleware, q, j).None?
    requires var q := InitialRequest(app, argv, parsed);
             Thread(app.middleware, q, |app.middleware|).command == q.command
    ensures var r := Run(app, argv, parsed, invoke);
            var last := Thread(app.middleware, InitialRequest(app, argv, parsed), |app.middleware|);
            && r.trace == Labels(0, |app.middleware|) + [Exec]
            && r.invoked == [last]
            && Some(last.command.value) == app.commands[parsed.positional[0]]
            && r.emitted == []
  {
    var q := InitialRequest(app, argv, parsed);
    CommandRunsOnceLast(app.middleware, q, invoke);
  }

  /** A run in which middleware `k` is the first to report an error never
      reaches the command and emits that error once, whatever was resolved. */
  lemma RunErrorSuppressesCommand<H, E>(app: App<H, E>, argv: seq<string>, parsed: Args,
                                        invoke: (H, Req<H>) -> Req<H>, k: nat)
    requires k < |app.middleware|
    requires var q := InitialRequest(app, argv, parsed);
             forall j :: 0 <= j < k ==> ErrorAt(app.middleware, q, j).None?
    requires ErrorAt(app.middleware, InitialRequest(app, argv, parsed), k).Some?
    ensures var r := Run(app, argv, parsed, invoke);
            && r.invoked == []
            && Exec !in r.trace
            && |r.trace| == k + 1
            && r.emitted == [ErrorAt(app.middleware, InitialRequest(app, argv, parsed), k).value]
  {
    ErrorStopsChain(app.middleware, InitialRequest(app, argv, parsed), invoke, k);
  }

  /** A fresh instance has no command to call: with no middleware, a run
      goes straight to `exec`, which finds `null` and crashes, and nothing
      is emitted. */
  lemma FreshInstanceHasNoCommand<H, E>(argv: seq<string>, parsed: Args, invoke: (H, Req<H>) -> Req<H>)
    ensures var r := Run(Empty<H, E>(), argv, parsed, invoke);
            r.crashed && r.invoked == [] && r.emitted == [] && r.trace == [Exec]
  {
    var q := InitialRequest(Empty<H, E>(), argv, parsed);
    DispatchIsExpected(Empty<H, E>().middleware, q, invoke);
  }
}
