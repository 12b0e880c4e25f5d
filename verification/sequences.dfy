/** Command, event and record sequences. */
module Sequences {
  /** The largest sequence; none is assigned after it. */
  const MAX_SEQUENCE: nat := 0xFFFF_FFFF_FFFF_FFFF
}
