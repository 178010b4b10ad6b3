/** Windows, as the other modules name them. */
module Windows {
  /** A window of the app with process id `pid`. */
  datatype WindowId = WindowId(pid: int, idx: nat)

  /** A space of the desktop. */
  type Space = int

  datatype Point = Point(x: real, y: real)
}
