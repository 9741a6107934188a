/** The few pieces of Rust's `core` library that the finite-float wrapper is built from:
    the three-way comparison result `Ordering` and the `Option` / `Result` return types. */
module Core {

  /** `core::cmp::Ordering`. The wrapper also uses it as a sign: Less for negative,
      Equal for zero, Greater for positive. */
  datatype Ordering = Less | Equal | Greater

  /** `Ordering::reverse`: swaps Less and Greater and keeps Equal. */
  function Reverse(o: Ordering): (r: Ordering)
    ensures (r == Equal) == (o == Equal)
    ensures r != o || o == Equal
  {
    match o
    case Less => Greater
    case Equal => Equal
    case Greater => Less
  }

  /** The sign of an integer, as an Ordering against zero. */
  function SignOfInt(x: int): (r: Ordering)
    ensures (r == Equal) == (x == 0)
    ensures (r == Less) == (x < 0)
  {
    if x < 0 then Less else if x == 0 then Equal else Greater
  }

  datatype Option<+T> = None | Some(value: T)

  datatype Result<+T, +E> = Ok(value: T) | Err(error: E)
}
