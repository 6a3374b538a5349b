/** Values shared by every scene: an optional value and a point on the drawing surface. */
module Common {

  /** A value that may be absent (the pointer's `null` coordinates). */
  datatype Option<+T> = None | Some(value: T)

  /** A position in pixel units on the drawing surface. */
  datatype Point = Point(x: real, y: real)
}
