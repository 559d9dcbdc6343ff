/** Small shared helpers: an optional value and integer min/max. */
module Options {

  /** A value that may be absent; stands for Java's `null` returns and
      for "no new route" results. */
  datatype Option<+T> = None | Some(value: T)

  function Max(a: int, b: int): int { if a < b then b else a }

  function Min(a: int, b: int): int { if a < b then a else b }
}
