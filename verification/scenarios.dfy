/** The behaviours the repository's tests expect, replayed on the model
    with handlers named by strings and errors given as messages. */
module Scenarios {
  import opened Request
  import opened Registry
  import opened Resolution
  import opened Chain
  import opened Sushi

  /** A command call that leaves the request as it is. */
  function Idle(h: string, q: Req<string>): Req<string>
  {
    q
  }

  /** Middleware that sets `context.ok` and calls `next()`. */
  function SetOk(q: Req<string>): (Req<string>, Option<string>)
  {
    (q.(context := q.context["ok" := Bool(true)]), None)
  }

  /** Middleware that calls `next(new Error(...))`. */
  function Fail(q: Req<string>): (Req<string>, Option<string>)
  {
    (q, Some("Error message"))
  }

  function StartStop(): App<string, string>
  {
    Command(Command(Empty(), "start", Callback("start"), None), "stop", Callback("stop"), None)
  }

  /** Running `start` calls the `start` handler once and never `stop`. */
  lemma MatchCommand()
    ensures var r := Run(StartStop(), ["start"], Args(["start"], map[]), Idle);
            |r.invoked| == 1 && r.invoked[0].command == Some("start") && r.invoked[0].name == "start"
            && r.invoked[0].args.positional == [] && r.emitted == []
  {
    var q := InitialRequest(StartStop(), ["start"], Args(["start"], map[]));
    assert FirstTokenMatches(StartStop().commands, ["start"]);
    CommandRunsOnceLast(StartStop().middleware, q, Idle);
  }

  /** With only `index` registered, a run with a non-command token calls
      `index` once and the token stays in the positional list. */
  lemma IndexWithArguments()
    ensures var app := Command(Empty<string, string>(), Index, Callback("index"), None);
            var r := Run(app, ["some-value", "-a", "true"], Args(["some-value"], map["a" := Str("true")]), Idle);
            |r.invoked| == 1 && r.invoked[0].command == Some("index")
            && r.invoked[0].args.positional == ["some-value"] && r.invoked[0].args.flags["a"] == Str("true")
  {
    var app := Command(Empty<string, string>(), Index, Callback("index"), None);
    var parsed := Args(["some-value"], map["a" := Str("true")]);
    var q := InitialRequest(app, ["some-value", "-a", "true"], parsed);
    CommandRunsOnceLast(app.middleware, q, Idle);
  }

  /** A field middleware puts on the context is visible to the command. */
  lemma UseMiddleware()
    ensures var app := Use(StartStop(), SetOk);
            var r := Run(app, ["start"], Args(["start"], map[]), Idle);
            |r.invoked| == 1 && r.invoked[0].command == Some("start")
            && "ok" in r.invoked[0].context && r.invoked[0].context["ok"] == Bool(true)
            && r.trace == [User(0), Exec]
  {
    var app := Use(StartStop(), SetOk);
    var q := InitialRequest(app, ["start"], Args(["start"], map[]));
    assert FirstTokenMatches(app.commands, ["start"]);
    assert ErrorAt(app.middleware, q, 0).None?;
    CommandRunsOnceLast(app.middleware, q, Idle);
    assert Labels(0, 1) == [User(0)];
  }

  /** A failing middleware keeps the command from running and the error
      reaches the `'error'` listener once. */
  lemma MiddlewareFailure()
    ensures var app := Use(StartStop(), Fail);
            var r := Run(app, ["start"], Args(["start"], map[]), Idle);
            r.invoked == [] && r.emitted == ["Error message"] && r.trace == [User(0)]
  {
    var app := Use(StartStop(), Fail);
    var q := InitialRequest(app, ["start"], Args(["start"], map[]));
    assert ErrorAt(app.middleware, q, 0) == Some("Error message");
    ErrorStopsChain(app.middleware, q, Idle, 0);
    assert Labels(0, 1) == [User(0)];
  }
}
