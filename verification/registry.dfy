/** The registration half of a Sushi instance: the middleware list filled
    by `use` and the two name-keyed tables filled by `command`. */
module Registry {
  import opened Request

  /** The registered state of one instance. A table entry holding `None`
      is a name that was registered without a handler (`fn` undefined),
      and an options entry holding `None` is a falsy options argument. */
  datatype App<!H, E> = App(
    middleware: seq<Middleware<H, E>>,
    commands: map<string, Option<H>>,
    commandOptions: map<string, Option<Record>>
  )

  /** The second argument of `command`: an options object, nothing
      (`undefined` or `null`), or the handler itself. */
  datatype OptionsArg<H> = Given(opts: Record) | Missing | Callback(fn: H)

  /** A fresh instance: no middleware, no commands, no options. */
  function Empty<H, E>(): (app: App<H, E>)
    ensures app.middleware == [] && app.commands == map[] && app.commandOptions == map[]
  {
    App([], map[], map[])
  }

  /** True when `name` holds a truthy handler, which is what `run`
      asks of `this.commands[name]`. */
  predicate Registered<H>(commands: map<string, Option<H>>, name: string)
  {
    name in commands && commands[name].Some?
  }

  /** `use(fn)`: the middleware goes to the end of the list and the
      command tables are untouched. */
  function Use<H, E>(app: App<H, E>, fn: Middleware<H, E>): (r: App<H, E>)
    ensures |r.middleware| == |app.middleware| + 1
    ensures r.middleware[..|app.middleware|] == app.middleware
    ensures r.middleware[|app.middleware|] == fn
    ensures r.commands == app.commands && r.commandOptions == app.commandOptions
  {
    app.(middleware := app.middleware + [fn])
  }

  /** Several `use` calls in a row, first element first. */
  function UseAll<H, E>(app: App<H, E>, fns: seq<Middleware<H, E>>): App<H, E>
    decreases |fns|
  {
    if |fns| == 0 then app else UseAll(Use(app, fns[0]), fns[1..])
  }

  /** Successive `use` calls keep registration order and touch nothing else. */
  lemma {:induction false} UseAllAppends<H, E>(app: App<H, E>, fns: seq<Middleware<H, E>>)
    ensures UseAll(app, fns).middleware == app.middleware + fns
    ensures UseAll(app, fns).commands == app.commands
    ensures UseAll(app, fns).commandOptions == app.commandOptions
    decreases |fns|
  {
    if |fns| > 0 {
      UseAllAppends(Use(app, fns[0]), fns[1..]);
      assert app.middleware + [fns[0]] + fns[1..] == app.middleware + fns;
    }
  }

  /** `command(name, options, fn)`. A handler passed in the options slot is
      registered with empty options and the third argument is ignored;
      otherwise `fn` (possibly absent) and `options` are stored as given.
      Either way both tables are overwritten at `name` and only there. */
  function Command<H, E>(app: App<H, E>, name: string, options: OptionsArg<H>, fn: Option<H>): (r: App<H, E>)
    ensures r.middleware == app.middleware
    ensures name in r.commands && name in r.commandOptions
    ensures options.Callback? ==> r.commands[name] == Some(options.fn) && r.commandOptions[name] == Some(map[])
    ensures options.Given? ==> r.commands[name] == fn && r.commandOptions[name] == Some(options.opts)
    ensures options.Missing? ==> r.commands[name] == fn && r.commandOptions[name] == None
    ensures forall n :: n != name ==> (n in r.commands <==> n in app.commands)
    ensures forall n :: n != name && n in app.commands ==> r.commands[n] == app.commands[n]
    ensures forall n :: n != name ==> (n in r.commandOptions <==> n in app.commandOptions)
    ensures forall n :: n != name && n in app.commandOptions ==> r.commandOptions[n] == app.commandOptions[n]
  {
    var handler := if options.Callback? then Some(options.fn) else fn;
    var stored := match options
      case Given(o) => Some(o)
      case Missing => None
      case Callback(_) => Some(map[]);
    app.(commands := app.commands[name := handler], commandOptions := app.commandOptions[name := stored])
  }

  /** Registering a name again replaces both its handler and its options:
      only the last registration under a name is visible. */
  lemma CommandOverwrites<H, E>(app: App<H, E>, name: string,
                                first: OptionsArg<H>, firstFn: Option<H>,
                                second: OptionsArg<H>, secondFn: Option<H>)
    ensures var twice := Command(Command(app, name, first, firstFn), name, second, secondFn);
            var once := Command(app, name, second, secondFn);
            twice.commands == once.commands && twice.commandOptions == once.commandOptions
            && twice.middleware == once.middleware
  {
  }
}
