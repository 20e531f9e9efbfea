/** Value types shared by every part of the model: absent values, error
    returns, the two kinds of partial update the controllers use, and the
    JavaScript truthiness tests that their guards rely on. */
module Common {

  /** A value that may be absent: `undefined` or `null` in the source. */
  datatype Option<+T> = None | Some(value: T) {
    function GetOr(default: T): T {
      match this
      case Some(v) => v
      case None => default
    }
  }

  /** The success or the failure of a request handler. */
  datatype Result<+T, +E> = Ok(value: T) | Err(error: E)

  /** A field of a partial update whose fallback is `x !== undefined ? x : old`:
      `Keep` is a field left out of the request, `Set(v)` any value sent,
      including `null` and the empty string. */
  datatype Patch<+T> = Keep | Set(value: T) {
    function ApplyTo(current: T): (r: T)
      ensures Keep? ==> r == current
      ensures Set? ==> r == value
    {
      match this
      case Keep => current
      case Set(v) => v
    }
  }

  /** JavaScript truthiness of an optional string: neither absent nor "". */
  predicate Truthy(s: Option<string>) {
    s.Some? && s.value != ""
  }

  /** The fallback `x || old` on an optional string: a falsy `x` keeps `old`. */
  function OrElse(s: Option<string>, current: string): (r: string)
    ensures Truthy(s) ==> r == s.value
    ensures !Truthy(s) ==> r == current
  {
    if Truthy(s) then s.value else current
  }

  /** JavaScript truthiness of an optional positive id: absent or 0 is falsy. */
  predicate TruthyId(k: Option<nat>) {
    k.Some? && k.value != 0
  }

  /** The fallback `x || old` on an optional id. */
  function IdOrElse(k: Option<nat>, current: Option<nat>): (r: Option<nat>)
    ensures TruthyId(k) ==> r == k
    ensures !TruthyId(k) ==> r == current
  {
    if TruthyId(k) then k else current
  }
}
