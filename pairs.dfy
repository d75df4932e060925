/** The word/reading pair the user edits and the compiler consumes. */
module Pairs {

  /** `RubyPair`: a word (`tango`), its reading, and the absolute-positioning hint. */
  datatype RubyPair = RubyPair(tango: string, reading: string, isAbsolute: bool)

  /** The pair the store starts with and that "add" appends. */
  const EmptyPair: RubyPair := RubyPair("", "", false)

  /** A pair takes part in compilation only when both its word and its reading are non-empty. */
  predicate IsValid(p: RubyPair) { p.tango != [] && p.reading != [] }

  function TangoOf(p: RubyPair): string { p.tango }
}
