/** What the C sources use of `<ctype.h>` and of C strings. */
module CStrings {
  const NUL: char := '\0'

  const WHITE: string := " \t\n\U{000B}\U{000C}\r"

  /** `isspace` in the C locale. */
  predicate IsSpace(c: char) {
    c == ' ' || c == '\t' || c == '\n' || c == '\U{000B}' || c == '\U{000C}' || c == '\r'
  }

  /** The six characters of white space, and no others. */
  lemma SpaceIff(c: char)
    ensures IsSpace(c) <==> c in WHITE
  {
    assert WHITE[0] == ' ' && WHITE[1] == '\t' && WHITE[2] == '\n' && WHITE[5] == '\r';
    assert WHITE[3] == '\U{000B}' && WHITE[4] == '\U{000C}';
  }
}
