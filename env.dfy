/** `EEnv`: reading a process environment variable. */
module Env {
  import opened Entry

  /** The process environment: variable names to values. */
  type Environment = map<string, string>

  /** `new EEnv(name).value()`, taken to be `System.getenv(name.value())`: the
      value of a set variable, `null` for an unset one. A failing name leaves
      unchanged; a `null` name makes `getenv` throw a NullPointerException. */
  function EEnv(name: Outcome<string>, env: Environment): (r: Outcome<string>)
    ensures name.Value? ==> (r.Value? <==> name.value in env)
    ensures name.Value? && name.value in env ==> r.value == env[name.value]
    ensures name.Value? && name.value !in env ==> r == NullValue
    ensures name.Thrown? ==> r == name
    ensures (name.NullValue? || name.NullPointer?) ==> r == NullPointer
  {
    match name
    case Value(n) => if n in env then Value(env[n]) else NullValue
    case NullValue => NullPointer
    case NullPointer => NullPointer
    case Thrown(e) => Thrown(e)
  }
}
