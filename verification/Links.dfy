/** How a request gets to a remote replica. */
module Links {
  /** Over an open connection, not at all, or after connecting. */
  datatype Link =
    | Active(sendStatus: int)
    | Refused(connectStatus: int)
    | Later(connectStatus: int, sendStatus: int)

  /** The status of the first step that fails, or 0. */
  function LinkStatus(l: Link): int {
    match l
    case Active(s) => s
    case Refused(s) => s
    case Later(c, s) => if c != 0 then c else s
  }
}
