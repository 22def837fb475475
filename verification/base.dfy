/**
 * Shared vocabulary: an optional value, and the JavaScript values the two
 * key/value stores hold, together with JavaScript's notion of truthiness.
 */
module Base {

  /** An optional value; `None` stands for JavaScript's `null`/absent. */
  datatype Option<+T> = None | Some(value: T)

  /**
   * A JavaScript value as far as the stores can tell values apart.
   * Objects, arrays and functions are references and are always truthy.
   */
  datatype JsValue =
    | Undefined
    | Null
    | Bool(b: bool)
    | Num(n: int)
    | Str(s: string)
    | Ref(id: nat)

  /** JavaScript's `!!v`. */
  predicate Truthy(v: JsValue)
  {
    match v
    case Undefined => false
    case Null => false
    case Bool(b) => b
    case Num(n) => n != 0
    case Str(s) => s != ""
    case Ref(_) => true
  }

  /** How a store operation ended: it took effect, it was refused with a
      logged error, it logged an error but still took effect, or it threw. */
  datatype Outcome = Done | Rejected | DoneDespiteError | Threw
}
