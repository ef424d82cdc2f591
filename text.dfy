/** The string library calls the matcher relies on: `String.prototype.trim`
    (applied to the input before anything else), and `split('\n')`, whose
    length gives a tag's line number. */
module Text {

  /** ECMAScript WhiteSpace and LineTerminator code points, the set `trim` removes. */
  predicate IsJsWhitespace(c: char) {
    c == '\t' || c == '\n' || c == '\U{B}' || c == '\U{C}' || c == '\r' || c == ' '
    || c == '\U{A0}' || c == '\U{1680}' || ('\U{2000}' <= c <= '\U{200A}')
    || c == '\U{2028}' || c == '\U{2029}' || c == '\U{202F}' || c == '\U{205F}'
    || c == '\U{3000}' || c == '\U{FEFF}'
  }

  predicate AllWhitespace(s: string) {
    forall k :: 0 <= k < |s| ==> IsJsWhitespace(s[k])
  }

  /** Every character of `s[lo..hi]` is whitespace. */
  predicate WhitespaceIn(s: string, lo: nat, hi: nat)
    requires lo <= hi <= |s|
  {
    forall k :: lo <= k < hi ==> IsJsWhitespace(s[k])
  }

  /** Where the text left after dropping leading whitespace from `s[i..]` starts. */
  function TrimStartIndex(s: string, i: nat): (r: nat)
    requires i <= |s|
    ensures i <= r <= |s| && WhitespaceIn(s, i, r)
    ensures r == |s| || !IsJsWhitespace(s[r])
    decreases |s| - i
  {
    if i < |s| && IsJsWhitespace(s[i]) then TrimStartIndex(s, i + 1) else i
  }

  /** Where the text left after dropping trailing whitespace from `s[lo..j]` ends. */
  function TrimEndIndex(s: string, lo: nat, j: nat): (r: nat)
    requires lo <= j <= |s|
    ensures lo <= r <= j && WhitespaceIn(s, r, j)
    ensures r == lo || !IsJsWhitespace(s[r - 1])
  {
    if lo < j && IsJsWhitespace(s[j - 1]) then TrimEndIndex(s, lo, j - 1) else j
  }

  /** `String.prototype.trim`: the contiguous part of `s` left once the
      whitespace at both ends is removed; empty exactly when `s` holds
      nothing but whitespace. */
  function Trim(s: string): (r: string)
    ensures exists lo :: 0 <= lo <= |s| - |r| && r == s[lo..lo + |r|]
                         && WhitespaceIn(s, 0, lo) && WhitespaceIn(s, lo + |r|, |s|)
    ensures r == [] || (!IsJsWhitespace(r[0]) && !IsJsWhitespace(r[|r| - 1]))
    ensures r == [] <==> AllWhitespace(s)
  {
    var lo := TrimStartIndex(s, 0);
    var hi := TrimEndIndex(s, lo, |s|);
    assert hi == lo ==> forall k :: 0 <= k < |s| ==> IsJsWhitespace(s[k]);
    s[lo..hi]
  }

  /** Number of `'\n'` characters in `s`. */
  function CountNewlines(s: string): nat
  {
    if s == [] then 0 else (if s[0] == '\n' then 1 else 0) + CountNewlines(s[1..])
  }

  /** `s.split('\n')`: the maximal newline-free pieces between separators;
      the empty string splits into one empty piece. */
  function Split(s: string): (parts: seq<string>)
    ensures |parts| >= 1
  {
    if s == [] then [[]]
    else
      var rest := Split(s[1..]);
      if s[0] == '\n' then [[]] + rest else [[s[0]] + rest[0]] + rest[1..]
  }

  /** `parts.join('\n')`, the inverse of `Split`. */
  function Join(parts: seq<string>): string
    requires |parts| >= 1
  {
    if |parts| == 1 then parts[0] else parts[0] + "\n" + Join(parts[1..])
  }

  /** Splitting yields one more piece than there are newlines. */
  lemma {:induction false} SplitLength(s: string)
    ensures |Split(s)| == CountNewlines(s) + 1
  {
    if s != [] {
      SplitLength(s[1..]);
    }
  }

  /** No piece of a split contains a newline. */
  lemma {:induction false} SplitPiecesHaveNoNewline(s: string)
    ensures forall p :: p in Split(s) ==> '\n' !in p
  {
    if s != [] {
      SplitPiecesHaveNoNewline(s[1..]);
      var rest := Split(s[1..]);
      if s[0] != '\n' {
        assert Split(s) == [[s[0]] + rest[0]] + rest[1..];
        assert '\n' !in rest[0];
        forall p | p in rest[1..]
          ensures p in rest
        {
        }
      }
    }
  }

  /** Joining the pieces of a split with `'\n'` restores the text. */
  lemma {:induction false} SplitJoin(s: string)
    ensures Join(Split(s)) == s
  {
    if s != [] {
      SplitJoin(s[1..]);
      var rest := Split(s[1..]);
      if s[0] == '\n' {
        assert Split(s)[1..] == rest;
        assert s == [] + "\n" + s[1..];
      } else {
        var parts := Split(s);
        assert parts[0] == [s[0]] + rest[0];
        if |rest| > 1 {
          assert parts[1..] == rest[1..];
          assert Join(rest) == rest[0] + "\n" + Join(rest[1..]);
          assert Join(parts) == ([s[0]] + rest[0]) + "\n" + Join(rest[1..]);
        }
        assert s == [s[0]] + s[1..];
      }
    }
  }

  lemma {:induction false} CountNewlinesAppend(a: string, b: string)
    ensures CountNewlines(a + b) == CountNewlines(a) + CountNewlines(b)
  {
    if a == [] {
      assert a + b == b;
    } else {
      assert (a + b)[1..] == a[1..] + b;
      CountNewlinesAppend(a[1..], b);
    }
  }

  lemma {:induction false} NoNewlines(s: string)
    requires forall k :: 0 <= k < |s| ==> s[k] != '\n'
    ensures CountNewlines(s) == 0
  {
    if s != [] {
      NoNewlines(s[1..]);
    }
  }

  /** `getLineNumber(text, position)`: the number of pieces of
      `text.substring(0, position).split('\n')`, i.e. one more than the
      newlines before `position`. */
  function LineNumber(text: string, position: nat): (line: nat)
    requires position <= |text|
    ensures line == CountNewlines(text[..position]) + 1
    ensures line >= 1
  {
    SplitLength(text[..position]);
    |Split(text[..position])|
  }

  /** Line numbers never decrease as the position moves right. */
  lemma LineNumberMonotone(text: string, p: nat, q: nat)
    requires p <= q <= |text|
    ensures LineNumber(text, p) <= LineNumber(text, q)
  {
    assert text[..q] == text[..p] + text[p..q];
    CountNewlinesAppend(text[..p], text[p..q]);
  }
}
