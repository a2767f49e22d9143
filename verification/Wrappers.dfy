/** Values shared by several components. */
module Wrappers {
  datatype Option<+T> = None | Some(value: T)

  /** SHA-256 as an injective function of the content. */
  datatype Digest = Sha256(content: string)
}
