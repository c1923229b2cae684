/** Types shared by several components. */
module Common {

  datatype Option<+T> = None | Some(value: T)

  /** A pointer to a node of an arena. */
  datatype Link = Null | At(node: nat)
}
