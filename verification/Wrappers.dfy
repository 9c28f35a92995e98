/** Types and constants shared by the models. */
module Wrappers {

  datatype Option<+A> = None | Some(value: A)

  /** The first number that does not fit 64 bits. */
  const WORD64: nat := 0x1_0000_0000_0000_0000

  /** isspace of the C locale. */
  predicate IsSpace(c: char) {
    c == ' ' || '\t' <= c <= '\r'
  }

  lemma SpaceCharacters(c: char)
    ensures IsSpace(c) <==> c as int == 32 || 9 <= c as int <= 13
  {}
}
