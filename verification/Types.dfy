/** The values that pass between the API process, Redis and the client. */
module Types {

  datatype Option<+T> = None | Some(value: T)

  datatype Error = WrongType | Unreachable | BadReply | UnsupportedAlgorithm

  datatype Result<+T> = Ok(value: T) | Err(error: Error)

  datatype Algorithm = TokenBucket | FixedWindow

  /** What a caller asks to be enforced: `limit` requests per `window` seconds. */
  datatype Config = Config(limit: int, window: int) {
    predicate Valid() {
      limit >= 1 && window >= 1
    }
  }

  /** A configuration that has passed the handler's validation. */
  type CheckedConfig = c: Config | c.Valid() witness Config(1, 1)

  /** A value as it comes out of a script. */
  datatype LuaValue = Number(n: int) | Text(s: string) | Nil | Array(vals: seq<LuaValue>)

  /** A validated request, and the time its process read before it asked. */
  datatype Call = Call(id: string, algorithm: Algorithm, config: CheckedConfig, nowMs: int)

  /** The four numbers a script returns; `resetAt` is in Unix seconds, `retryAfter` in seconds. */
  datatype Reply = Reply(allowed: bool, remaining: int, resetAt: int, retryAfter: int)
}
