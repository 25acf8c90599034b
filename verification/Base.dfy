/** Vocabulary shared by the models: optional values, bytes and minimum. */
module Base {
  datatype Option<+T> = None | Some(value: T)

  /** A `std::uint8_t`, as a number. */
  type Byte = x: int | 0 <= x < 256

  function Min(a: int, b: int): (m: int)
    ensures m <= a && m <= b && (m == a || m == b)
  {
    if a < b then a else b
  }
}
