/** Constants of shell.c and the C-locale character classes it relies on. */
module CType {
  const MAX_BUFFER_SIZE: nat := 513
  const MAX_LINE_SIZE: nat := 512

  const NUL: char := '\0'
  const NEW_LINE: char := '\n'

  const PIPE_INPUT: char := '<'
  const PIPE_OUTPUT: char := '>'
  const PIPE_BACKGROUND: char := '&'

  /** isspace() in the C locale: ' ', '\t', '\n', '\v', '\f' and '\r'. */
  predicate IsSpace(c: char) {
    c == ' ' || '\t' <= c <= '\r'
  }

  /** isgraph() in the C locale: the printable characters other than ' '. */
  predicate IsGraph(c: char) {
    '!' <= c <= '~'
  }

  /** The redirection markers getFilename accepts. */
  predicate IsPipe(c: char) {
    c == PIPE_INPUT || c == PIPE_OUTPUT
  }
}

module Wrappers {
  datatype Option<+T> = None | Some(value: T)
}
