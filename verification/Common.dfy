/**
 What the modules share.
 */
module Common {
  datatype Option<T> = None | Some(value: T)

  /** EXT_MAX_BLOCKS */
  const MAX_BLOCKS: nat := 0xffff_ffff
}
