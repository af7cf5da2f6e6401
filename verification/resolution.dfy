/** Command resolution, the first half of `Sushi.prototype.run`: from the
    command tables and the parsed positional tokens, decide the command
    name, the positional tokens the command sees, its handler and its
    options. */
module Resolution {
  import opened Request
  import opened Registry

  datatype Resolved<H> = Resolved(name: string, positional: seq<string>, command: Option<H>, options: Record)

  /** True when the first positional token names a registered command.
      An empty token is falsy and so never names one. */
  predicate FirstTokenMatches<H>(commands: map<string, Option<H>>, positional: seq<string>)
  {
    |positional| > 0 && positional[0] != "" && Registered(commands, positional[0])
  }

  /** The options stored under `name`, with a falsy entry read as `{}`. */
  function OptionsOf(commandOptions: map<string, Option<Record>>, name: string): (o: Record)
    ensures name in commandOptions && commandOptions[name].Some? ==> o == commandOptions[name].value
    ensures name !in commandOptions || commandOptions[name].None? ==> o == map[]
  {
    if name in commandOptions && commandOptions[name].Some? then commandOptions[name].value else map[]
  }

  /** Resolution of a run. The name is the first token when that token is
      a registered command, and "index" otherwise; the token is consumed
      exactly when the name is not "index"; the handler is the one
      registered under the name, if any; options default to `{}`. */
  function Resolve<H>(commands: map<string, Option<H>>, commandOptions: map<string, Option<Record>>,
                      positional: seq<string>): (r: Resolved<H>)
    ensures FirstTokenMatches(commands, positional) ==> r.name == positional[0]
    ensures !FirstTokenMatches(commands, positional) ==> r.name == Index
    ensures r.name != Index ==> positional == [r.name] + r.positional
    ensures r.name == Index ==> r.positional == positional
    ensures r.command.Some? <==> Registered(commands, r.name)
    ensures r.command.Some? ==> commands[r.name] == r.command
    ensures r.name in commandOptions && commandOptions[r.name].Some? ==> r.options == commandOptions[r.name].value
    ensures r.name !in commandOptions || commandOptions[r.name].None? ==> r.options == map[]
  {
    var first := if |positional| > 0 && positional[0] != "" then positional[0] else Index;
    var name := if Registered(commands, first) then first else Index;
    var rest := if name != Index then positional[1..] else positional;
    var command := if Registered(commands, name) then commands[name] else None;
    Resolved(name, rest, command, OptionsOf(commandOptions, name))
  }

  /** The resolved name is always "index" or a command that really is
      registered, so a run never routes to a name nobody registered. */
  lemma ResolvedNameIsRegisteredOrIndex<H>(commands: map<string, Option<H>>,
                                           commandOptions: map<string, Option<Record>>,
                                           positional: seq<string>)
    ensures var r := Resolve(commands, commandOptions, positional);
            r.name == Index || (Registered(commands, r.name) && r.command.Some?)
  {
  }

  /** A first token that is not a registered command stays in the
      positional list, and the run falls back to "index". */
  lemma UnregisteredTokenIsKept<H>(commands: map<string, Option<H>>,
                                   commandOptions: map<string, Option<Record>>,
                                   token: string, rest: seq<string>)
    requires !Registered(commands, token)
    ensures var r := Resolve(commands, commandOptions, [token] + rest);
            r.name == Index && r.positional == [token] + rest
  {
  }

  /** A literal "index" token resolves to "index" but is not consumed. */
  lemma IndexTokenIsKept<H>(commands: map<string, Option<H>>,
                            commandOptions: map<string, Option<Record>>,
                            rest: seq<string>)
    ensures var r := Resolve(commands, commandOptions, [Index] + rest);
            r.name == Index && r.positional == [Index] + rest
  {
  }

  /** With nothing registered under "index", a run that matches nothing
      has no handler; in particular a fresh instance never has one. */
  lemma NoMatchWithoutIndexHasNoCommand<H>(commands: map<string, Option<H>>,
                                           commandOptions: map<string, Option<Record>>,
                                           positional: seq<string>)
    requires !FirstTokenMatches(commands, positional)
    requires !Registered(commands, Index)
    ensures Resolve(commands, commandOptions, positional).command == None
  {
  }

  /** Round trip from registration to dispatch: after `command(name, ...)`
      with a handler, a run whose first token is `name` resolves to that
      handler and those options. The token is consumed unless `name` is
      "index" itself. */
  lemma RegisteredCommandIsResolved<H, E>(app: App<H, E>, name: string,
                                          options: OptionsArg<H>, fn: Option<H>, rest: seq<string>)
    requires name != ""
    requires options.Callback? || fn.Some?
    ensures var a := Command(app, name, options, fn);
            var r := Resolve(a.commands, a.commandOptions, [name] + rest);
            && r.name == name
            && (name != Index ==> r.positional == rest)
            && (name == Index ==> r.positional == [name] + rest)
            && (options.Callback? ==> r.command == Some(options.fn) && r.options == map[])
            && (options.Given? ==> r.command == fn && r.options == options.opts)
            && (options.Missing? ==> r.command == fn && r.options == map[])
  {
    var a := Command(app, name, options, fn);
    assert ([name] + rest)[0] == name;
    assert FirstTokenMatches(a.commands, [name] + rest);
    assert ([name] + rest)[1..] == rest;
  }

  /** Registering a name other than "index" leaves every run whose first
      token is a different word resolved exactly as before. */
  lemma OtherRegistrationDoesNotAffect<H, E>(app: App<H, E>, name: string,
                                             options: OptionsArg<H>, fn: Option<H>,
                                             positional: seq<string>)
    requires name != Index
    requires |positional| == 0 || positional[0] != name
    ensures var a := Command(app, name, options, fn);
            Resolve(a.commands, a.commandOptions, positional)
              == Resolve(app.commands, app.commandOptions, positional)
  {
  }

  // ---------------------------------------------------------------------
  // The table lookup as written. `commands` is a plain object literal, so
  // `this.commands[name]` also finds the members every object inherits.
  // ---------------------------------------------------------------------

  /** The property names a plain JavaScript object inherits from
      `Object.prototype`; each of them reads as a truthy value. */
  const InheritedKeys: set<string> := {
    "constructor", "hasOwnProperty", "isPrototypeOf", "propertyIsEnumerable",
    "toLocaleString", "toString", "valueOf", "__proto__",
    "__defineGetter__", "__defineSetter__", "__lookupGetter__", "__lookupSetter__"
  }

  /** Truthiness of `obj[name]` on a plain object: an own property decides,
      otherwise an inherited member is found. */
  predicate TruthyAsWritten<H>(obj: map<string, Option<H>>, name: string)
  {
    if name in obj then obj[name].Some? else name in InheritedKeys
  }

  /** The command name exactly as `run` computes it, with the inherited
      members taking part in the `!this.commands[name]` test. */
  function ResolveNameAsWritten<H>(commands: map<string, Option<H>>, positional: seq<string>): (name: string)
    ensures name == Index
            || (|positional| > 0 && positional[0] != "" && name == positional[0] && TruthyAsWritten(commands, name))
    ensures |positional| > 0 && positional[0] != "" && TruthyAsWritten(commands, positional[0])
            ==> name == positional[0]
  {
    var first := if |positional| > 0 && positional[0] != "" then positional[0] else Index;
    if TruthyAsWritten(commands, first) then first else Index
  }

  /** The as-written lookup routes a token such as "constructor" to a
      built-in function instead of falling back to the registered "index"
      command; the own-property resolution falls back as intended. */
  lemma InheritedNameBypassesIndex<H>(commands: map<string, Option<H>>,
                                      commandOptions: map<string, Option<Record>>)
    requires Registered(commands, Index)
    requires "constructor" !in commands
    ensures ResolveNameAsWritten(commands, ["constructor"]) == "constructor"
    ensures Resolve(commands, commandOptions, ["constructor"]).name == Index
    ensures Resolve(commands, commandOptions, ["constructor"]).command == commands[Index]
  {
    assert "constructor" in InheritedKeys;
  }
}
