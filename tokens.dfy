/** Values shared by every stage of the tag matcher: the optional value that
    stands for JavaScript's `null`, the character classes of the tag pattern,
    and the tag token that the extractor produces. */
module Tokens {

  datatype Option<T> = None | Some(value: T)

  /** `[a-zA-Z]` */
  predicate IsLetter(c: char) {
    ('a' <= c <= 'z') || ('A' <= c <= 'Z')
  }

  /** `[a-zA-Z0-9]` */
  predicate IsAlnum(c: char) {
    IsLetter(c) || ('0' <= c <= '9')
  }

  /** A word character in the sense of JavaScript's `\b` (no `u` flag): `[A-Za-z0-9_]`. */
  predicate IsWordChar(c: char) {
    IsAlnum(c) || c == '_'
  }

  /** A tag name as the pattern captures it: a letter, then letters and digits. */
  predicate IsTagName(n: string) {
    |n| >= 1 && IsLetter(n[0]) && forall k :: 1 <= k < |n| ==> IsAlnum(n[k])
  }

  /** `String.prototype.startsWith` */
  predicate StartsWith(s: string, prefix: string) {
    |prefix| <= |s| && s[..|prefix|] == prefix
  }

  /** One tag occurrence found in the (trimmed) input text.
      `position` is the offset of its `<`, `line` is 1-based. */
  datatype Token = Token(name: string, fullTag: string, isClosing: bool, position: nat, line: nat)

  function Last<T>(s: seq<T>): T
    requires s != []
  {
    s[|s| - 1]
  }
}
