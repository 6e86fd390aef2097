/** Engine-level value types shared by the construction-node model. */
module CoreTypes {

  /** An engine name (FName). Modelled as its string; two names are equal when their strings are. */
  type Name = string

  /** The empty name. */
  const NAME_None: Name := ""

  /** The "no index" sentinel returned by searches over engine arrays. */
  const INDEX_NONE: int := -1
}
