/**
 * The dynamically typed values Go keeps in `map[string]interface{}` and the
 * coercion `utils.InterfaceToString`. Only two cases of the coercion are
 * pinned down: a string passes through and a boolean renders as
 * `strconv.FormatBool` does. Every other value (integers, floats, nil,
 * unsupported types) carries the string the coercion gives it, so that the
 * rest of the model can depend on the coercion without defining it.
 */
module TypeConversion {
  import opened Strconv

  datatype Value =
    | StringValue(s: string)
    | BoolValue(b: bool)
    | OtherValue(rendering: string)

  /** `utils.InterfaceToString`. */
  function InterfaceToString(v: Value): (r: string)
    ensures v.StringValue? ==> r == v.s
    ensures v.BoolValue? ==> r == FormatBool(v.b)
  {
    match v
    case StringValue(s) => s
    case BoolValue(b) => FormatBool(b)
    case OtherValue(rendering) => rendering
  }
}
