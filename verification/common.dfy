/** What several components share. */
module Wrappers {
  datatype Option<+T> = None | Some(value: T)
}

module Relations {
  /** The relation bits of a requirement: <, = and >. */
  datatype Rel = Rel(lt: bool, eq: bool, gt: bool) {
    predicate Any() {
      lt || eq || gt
    }
  }

  const NO_RELATION := Rel(false, false, false)
}
