/** A table cell as the parsers store it: `_safe_num` of stress.py turns a
    token into a float when `float()` accepts it, else an int when `int()`
    does, else keeps the text. */
module Cells {
  import opened Wrappers
  import opened Numbers

  datatype Cell = Num(value: real) | Str(text: string)

  /** `_safe_num`. */
  function SafeNum(token: string): (c: Cell)
    ensures c.Num? <==> ParseFloat(token).Some? || ParseInt(token).Some?
    ensures c.Str? ==> c.text == token
  {
    match ParseFloat(token)
    case Some(x) => Num(x)
    case None =>
      match ParseInt(token)
      case Some(i) => Num(i as real)
      case None => Str(token)
  }

  /** The `int()` fallback of `_safe_num` is never the one that succeeds:
      whatever `int()` accepts, `float()` accepts with the same value. */
  lemma SafeNumIntFallbackUnused(token: string)
    ensures SafeNum(token).Num? <==> ParseFloat(token).Some?
    ensures ParseFloat(token).Some? ==> SafeNum(token) == Num(ParseFloat(token).value)
    ensures ParseInt(token).Some? ==> SafeNum(token) == Num(ParseInt(token).value as real)
  {
  }

  /** pandas `astype(float)` of one cell: text that `float()` rejects raises. */
  function AsFloat(c: Cell): (r: Option<real>)
    ensures c.Num? ==> r == Some(c.value)
  {
    match c
    case Num(x) => Some(x)
    case Str(t) => ParseFloat(t)
  }
}
