/** The JavaScript values the two converters accept, and how `isNaN` and unary `+` see them. */
module Values {
  import opened Wrappers
  import Strings

  /**
   * An argument: an integral number, a string, or any other value whose
   * conversion to a number is NaN (undefined, an object, or NaN itself,
   * which is `Other("number", "NaN")`), carried with its `typeof` name and
   * its `${}` rendering. An `Other` value is never an integral number or a
   * string: those values are `Num` and `Str`.
   */
  datatype Value = Num(n: int) | Str(s: string) | Other(typeName: string, shown: string)

  /** `isNaN(v) ? None : Some(+v)`. */
  function NumberValue(v: Value): (r: Option<int>)
    ensures v.Num? ==> r == Some(v.n)
    ensures v.Other? ==> r == None
  {
    match v
    case Num(n) => Some(n)
    case Str(s) => Strings.ToNumber(s)
    case Other(_, _) => None
  }

  /** `typeof v`. */
  function TypeOf(v: Value): string {
    match v
    case Num(_) => "number"
    case Str(_) => "string"
    case Other(typeName, _) => typeName
  }

  /** What `${v}` writes for a value that is not a number. */
  function Shown(v: Value): string {
    match v
    case Num(n) => Strings.IntToString(n)
    case Str(s) => s
    case Other(_, shown) => shown
  }
}
