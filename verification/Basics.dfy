/** Small definitions shared by several components. */
module Basics {
  datatype Option<T> = None | Some(value: T)

  /** Division by a positive number that truncates toward zero. */
  function Div(a: int, b: int): int
    requires b > 0
  {
    if a >= 0 then a / b else -((-a) / b)
  }
}
