/** Values that several parts of the system share. */
module Values {
  datatype Option<T> = None | Some(value: T)

  /** A floating point number without rounding, or not a number. */
  datatype Num = NaN | Num(v: real)

  function Max(a: int, b: int): int { if a < b then b else a }
  function Min(a: int, b: int): int { if a < b then a else b }
}
