/** What the extraction passes of the parser share. */
module Extraction {
  /** Result of one extraction pass: the field it found ("" when none) and the
      rewritten working copy. */
  datatype Taken = Taken(value: string, rest: string)
}
