/** Small shared vocabulary: optional values, results, and the process
    environment as the routes read it. */
module Common {

  datatype Option<+T> = None | Some(value: T)

  datatype Result<+T, +E> = Ok(value: T) | Failure(error: E)

  /** `process.env`: a variable that is not set is simply absent. */
  type Env = map<string, string>

  /** `process.env.K` as a possibly-undefined string. */
  function Lookup(env: Env, key: string): Option<string> {
    if key in env then Some(env[key]) else None
  }

  /** JavaScript truthiness of a possibly-undefined string: set and not empty. */
  predicate Truthy(s: Option<string>) {
    s.Some? && s.value != ""
  }

  /** A possibly-undefined string inside a template literal: `${undefined}` is "undefined". */
  function Show(s: Option<string>): string {
    match s
    case None => "undefined"
    case Some(v) => v
  }

  /** `a || b` on possibly-undefined strings: `a` when it is truthy, otherwise `b`. */
  function OrElse(a: Option<string>, b: string): string {
    if Truthy(a) then a.value else b
  }
}
