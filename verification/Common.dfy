/** What several modules use. */
module Common {
  datatype Option<+T> = None | Some(value: T)

  /** The limits of SSize_t and Size_t; no C object is larger than the former. */
  const SSIZE_MAX: int := 0x7fff_ffff_ffff_ffff
  const SIZE_MAX: int := 0xffff_ffff_ffff_ffff
}
