# Sushi command dispatcher, modelled in Dafny

Sushi is a small command-line framework. An application registers
middleware with `use(fn)` and commands with `command(name, [options], fn)`.
It then calls `run(argv)`. A run picks a command name from the first
positional token, builds one shared request object, and passes that
request through the middleware in registration order. The last step,
`exec`, calls the command. If a middleware hands an error to its `next`
callback, the chain stops and the instance emits `'error'` with that error.

The model is written in Dafny's functional style:

- `Registry`: the instance's registered state (`App`) and the two
  registration operations.
- `Resolution`: the pure function that maps the command tables and the
  parsed positional tokens to a name, the remaining tokens, a handler and
  options.
- `Chain`: the serial chain. `Each` folds over the stage list (the
  middleware, then `exec`) and stops at the first error. `Dispatch`, built
  on `Each`, is proved equal to a reference outcome (`Expected`), which is built from the request
  after k steps (`Thread`) and the first failing step (`FirstFailure`).
  `DispatchLoop` is the same chain written as a loop.
- `Sushi`: `Run`, which is resolution followed by the chain.
- `Scenarios`: the behaviours the repository's tests expect, replayed on
  the model.

Command handlers are a type parameter. What a command does to the request
is passed to `Run` as `invoke`. A middleware is a total function from the
request to the new request plus an optional error.

Three facts about index.js shape the model:

- Routing is by exact command name. There is no pattern matching and no
  nested ("onion") middleware.
- Only the parsed positional list (`args._`) loses the routed token. The
  request's `argv` is passed through unchanged.
- If `exec` finds no command on the request (none was resolved, no
  middleware set one, and no middleware failed first), it calls `null` and
  throws, which the model records as `crashed`.

## Model

| member | source | states |
|---|---|---|
| `Registry.Empty` | index.js:28-31 | a fresh instance has no middleware, no commands and no per-command options |
| `Registry.Use` | index.js:39-43 | `use` appends the middleware at the end of the list and leaves both command tables as they were |
| `Registry.UseAllAppends` | index.js:39-43 | a series of `use` calls gives the old list followed by the new middleware in call order, with the tables unchanged |
| `Registry.Command` | index.js:45-55 | a handler in the options slot is stored with `{}` options; otherwise the given handler (possibly absent) and options are stored; every other name keeps its entries; middleware is unchanged |
| `Registry.CommandOverwrites` | index.js:51-52 | registering a name twice is the same as registering it only the second time: handler and options are both replaced |
| `Resolution.OptionsOf` | index.js:76 | the stored options for a name, or `{}` when the name is missing or its options are falsy |
| `Resolution.Resolve` | index.js:65-76 | the name is the first token when that token is a non-empty registered command, and "index" otherwise; the token list loses exactly its first element iff the name is not "index"; the handler is present iff the name is registered and is the registered one; options are the stored ones or `{}` |
| `Resolution.ResolvedNameIsRegisteredOrIndex` | index.js:65-69 | a run is routed either to "index" or to a name that holds a handler |
| `Resolution.UnregisteredTokenIsKept` | index.js:65-73 | an unregistered first token gives the name "index" and stays in the positional list |
| `Resolution.IndexTokenIsKept` | index.js:71-73 | a literal "index" token resolves to "index" and is not consumed |
| `Resolution.NoMatchWithoutIndexHasNoCommand` | index.js:67-75 | when nothing matches and "index" has no handler, the resolved command is `null` |
| `Resolution.RegisteredCommandIsResolved` | index.js:45-76 | after `command(name, ...)` with a handler, a run whose first token is `name` resolves to that handler and those options, and consumes the token unless it is "index" |
| `Resolution.OtherRegistrationDoesNotAffect` | index.js:51-52 | registering some name other than "index" leaves resolution unchanged for every token list whose first token is a different word |
| `Resolution.ResolveNameAsWritten` | index.js:65-69 | the name as the source computes it: a missing or empty first token gives "index", and a first token is kept exactly when it is truthy in the table, where names inherited from `Object.prototype` pass the registration test |
| `Resolution.InheritedNameBypassesIndex` | index.js:67-69 | with "index" registered and the token "constructor", the as-written lookup routes to "constructor" while `Resolve` falls back to the index handler |
| `Chain.Pipeline` | index.js:87-88 | the stage list is the middleware in order, followed by exactly one `exec` as the last element |
| `Chain.Each` | index.js:90-93 | the chain never records more steps than there are stages; it records all of them when it finishes; a stop is reported by a user step and a crash by `exec`, and that step is the last one recorded |
| `Chain.EachTraceIsPrefix` | index.js:90-93 | the recorded steps are the first stages of the list, in list order, each tagged with its own position |
| `Chain.FirstFailureFrom` | index.js:90-98 | returns the first position whose middleware reports an error given the request its predecessors built, or none when no position does |
| `Chain.CompletesFrom` | index.js:90-98 | with no error from position j on, the remaining chain runs every middleware and then `exec`, calling the command once with the threaded request or crashing when it holds none |
| `Chain.StopsFrom` | index.js:90-98 | when position k is the first error from j on, the remaining chain runs positions j..k only and stops with k's error, without calling the command |
| `Chain.Dispatch` | index.js:87-98 | the chain over a request followed by the final callback: at most one `'error'` emission; an emission means no crash and no `exec` step; without one, every middleware ran in order and then `exec`, also when `exec` crashes |
| `Chain.DispatchIsExpected` | index.js:87-98 | for all middleware, requests and commands, a run of the chain equals the reference outcome built from the first failing step |
| `Chain.ErrorStopsChain` | index.js:90-98 | when middleware k is the first to fail, steps 0..k ran, `exec` did not, no command was called, and k's error is emitted exactly once |
| `Chain.CommandRunsOnceLast` | index.js:106-109 | with no middleware error and a command present, all middleware ran in order and then `exec` once as the last step, the command got the request the middleware built, and nothing is emitted |
| `Chain.EmitsIffMiddlewareFails` | index.js:94-98 | at most one emission and at most one command call per run; an emission happens iff some middleware fails, and then no command was called |
| `Chain.DispatchLoop` | index.js:87-98 | the loop over middleware followed by `exec` computes the same report as the fold |
| `Sushi.InitialRequest` | index.js:65-85 | the request starts with an empty context, the unshifted argv and the parsed flags; it carries the resolved name, the remaining positional tokens, the handler registered under the name and the options stored under it (or `{}`) |
| `Sushi.Run` | index.js:57-98 | one run emits `'error'` at most once; an emission means `exec` never ran and nothing crashed; without one, all middleware ran in registration order followed by `exec` |
| `Sushi.RunCallsResolvedCommand` | index.js:65-109 | when the first token names a registered command, no middleware fails and none replaces the command, the handler registered under that token is called exactly once, last, and nothing is emitted |
| `Sushi.RunErrorSuppressesCommand` | index.js:87-98 | when middleware k fails first, a whole run calls no command, stops after k+1 steps and emits that error once |
| `Sushi.FreshInstanceHasNoCommand` | index.js:106-109 | on a fresh instance, with own-property lookup, a run goes straight to `exec`, which finds no command and crashes without emitting anything |
| `Scenarios.MatchCommand` | index.js:65-85 | with "start" and "stop" registered, running "start" calls only the start handler, once, with the token consumed |
| `Scenarios.IndexWithArguments` | test.js:59-73 | with only "index" registered, a non-command token reaches the index handler with the token still positional and the flags intact |
| `Scenarios.UseMiddleware` | test.js:87-106 | a context field set by middleware is visible to the command |
| `Scenarios.MiddlewareFailure` | test.js:108-126 | a failing middleware keeps the command from running, and its error is emitted once |

## Findings

| source | as written | input that shows it | evidently intended | confidence | as-written member | corrected member |
|---|---|---|---|---|---|---|
| index.js:67 | `!this.commands[name]` on a plain object literal, which also finds inherited members such as `constructor` and `toString` | only "index" registered, argv `["constructor"]`: the name stays "constructor", `exec` calls the built-in `Object`, and the index handler never runs (`Resolution.InheritedNameBypassesIndex`) | only names registered with `command` count, so any other token falls back to "index" | not executed | `Resolution.ResolveNameAsWritten` | `Resolution.Resolve` |

## Left out

- Argument parsing by minimist (index.js:64), including the instance's `options.args` configuration: a run takes the parsed positional tokens and flags as an input.
- The `process.argv.slice(2)` default (index.js:60-62): this is process I/O, so argv is always given.
- The `setImmediate` hop and the internals of `each-series` (index.js:90-93): the chain is a sequential fold, and timing is not modelled.
- The EventEmitter base and the constructor's `instanceof` check (index.js:18-37): emissions are an output list. Node's rule that emitting `'error'` with no listener throws is not modelled.
- Sushi.Run: `Run` and its lemmas (`Sushi.RunCallsResolvedCommand`, `Sushi.RunErrorSuppressesCommand`, `Sushi.FreshInstanceHasNoCommand`) use the corrected own-property `Resolve`. The inherited-name lookup index.js:67 actually performs is modelled only by `Resolution.ResolveNameAsWritten` (see Findings).
- Sushi.FreshInstanceHasNoCommand: holds for own-property lookup only. With index.js as written, a token such as `toString` on a fresh instance routes to the inherited `Object.prototype.toString`, which `exec` calls without throwing.
- What middleware does to the instance: index.js:92 calls each step with the instance as `this`, so a middleware could emit events or register middleware and commands during a run. A model middleware sees only the request. The bounds on emissions in `Chain.EmitsIffMiddlewareFails`, `Chain.Dispatch` and `Sushi.Run` are about the dispatcher's own `'error'` emission at index.js:96.
- The TypeError raised when `exec` calls a `null` command (index.js:107): it becomes the `crashed` flag, with nothing emitted.
- Middleware that never calls `next` or calls it twice, and handlers that throw: a middleware is a total function that reports at most one error.
- JavaScript falsiness of tokens: tokens are strings, and only the empty token counts as missing.
- Registering a command named `__proto__`, which would change the table's prototype.
- Flag and context values: the model keeps booleans, integers and strings. The exact shape of parsed flags belongs to the parser.
- The older `app.on(name, ...)` API that test.js is written against: only the test cases whose expectations agree with index.js are replayed. The middleware in test.js take `(args, context, next)` (test.js:92, test.js:113); `Scenarios.UseMiddleware` and `Scenarios.MiddlewareFailure` write them with the `(req, next)` signature index.js:92 calls them with.
- Pattern-matched routing and generator-based nested middleware: index.js does not implement them.
