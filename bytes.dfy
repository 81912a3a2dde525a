/**
 * Bytes as the C code sees them: `char` values 0..255, with the C locale's
 * character classes (`isdigit`, `isalnum`, `isspace`, `isxdigit`).
 */
module Bytes {

  /** A byte; string literals of ASCII text are byte sequences directly. */
  type byte = c: char | c as int < 256 witness '\0'

  /** `CHAR_EOF`, the terminator of every C string. */
  const NUL: byte := '\0'

  predicate IsDigit(c: byte) { '0' <= c <= '9' }

  predicate IsAlpha(c: byte) { 'a' <= c <= 'z' || 'A' <= c <= 'Z' }

  predicate IsAlnum(c: byte) { IsDigit(c) || IsAlpha(c) }

  predicate IsXDigit(c: byte) { IsDigit(c) || 'a' <= c <= 'f' || 'A' <= c <= 'F' }

  /** `isspace` in the C locale: space, \t, \n, \v, \f, \r. */
  predicate IsSpace(c: byte) { c == ' ' || '\t' <= c <= '\r' }

  /** A C string: a byte sequence holding no terminator. */
  predicate NulFree(s: seq<byte>) { forall i :: 0 <= i < |s| ==> s[i] != NUL }

  /** The byte at index `k` of a NUL-terminated buffer whose content is `s`. */
  function At(s: seq<byte>, k: nat): byte
  {
    if k < |s| then s[k] else NUL
  }

  /** A prefix one byte longer. */
  lemma PrefixSnoc(s: seq<byte>, l: nat)
    requires l < |s|
    ensures s[..l + 1] == s[..l] + [s[l]]
  {
  }
}
