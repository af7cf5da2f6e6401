/** The values a run hands to middleware and commands: the parsed
    arguments and the shared request object built by `Sushi.prototype.run`. */
module Request {

  /** An optional value: `None` stands for JavaScript's `undefined` or
      `null`, or for a falsy error passed to a callback. */
  datatype Option<+T> = None | Some(value: T)

  /** The name every run falls back to when no registered command matches. */
  const Index: string := "index"

  /** A flag value or a context field. */
  datatype Value = Bool(b: bool) | Num(n: int) | Str(s: string)

  /** A plain JavaScript object whose fields are read by name
      (per-command options, the request context, parsed flags). */
  type Record = map<string, Value>

  /** What the argument parser makes of argv: the bare positional
      tokens (`args._`) and the named flags. */
  datatype Args = Args(positional: seq<string>, flags: Record)

  /** The request object shared by every step of one run. `command` is
      the handler the last step will call; `null` is `None`. */
  datatype Req<H> = Req(
    command: Option<H>,
    options: Record,
    context: Record,
    argv: seq<string>,
    args: Args,
    name: string
  )

  /** A middleware step: it sees the request, may change it, and then
      calls `next` with an error (`Some`) or without one (`None`). */
  type Middleware<!H, E> = Req<H> -> (Req<H>, Option<E>)
}
