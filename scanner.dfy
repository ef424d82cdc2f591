/** Tag extraction (`extractTags` in script.js). The global regular
    expression `<\/?([a-zA-Z][a-zA-Z0-9]*)\b[^>]*>` is modelled by an explicit
    matcher, `MatchAt`, proved equivalent to a declarative statement of what
    the pattern accepts, and by the scanning loop of `RegExp.prototype.exec`
    with the `g` flag: find the leftmost match at or after `lastIndex`, emit
    it, and continue from its end. */
module Scanner {
  import opened Tokens
  import opened Text

  /** Offsets of one match starting at some `<`: the captured name is
      `s[nameStart..nameEnd]`, the whole match ends just before `end`. */
  datatype TagMatch = TagMatch(nameStart: nat, nameEnd: nat, end: nat)

  /** What the pattern accepts at `p`: `<`, an optional `/`, a tag name, a
      word boundary (the next character is not `[A-Za-z0-9_]`), any run of
      non-`>` characters, and `>`. */
  predicate IsPatternMatch(s: string, p: nat, m: TagMatch) {
    p < |s| && s[p] == '<'
    && (m.nameStart == p + 1 || (m.nameStart == p + 2 && p + 1 < |s| && s[p + 1] == '/'))
    && m.nameStart < m.nameEnd < m.end <= |s|
    && IsTagName(s[m.nameStart..m.nameEnd])
    && !IsWordChar(s[m.nameEnd])
    && s[m.end - 1] == '>'
    && (forall j :: m.nameEnd <= j < m.end - 1 ==> s[j] != '>')
  }

  /** No match of the pattern starts anywhere in `[lo, hi)`. */
  ghost predicate NoMatchIn(s: string, lo: nat, hi: nat) {
    forall p, m :: lo <= p < hi ==> !IsPatternMatch(s, p, m)
  }

  /** The end of the longest run of `[a-zA-Z0-9]` starting at `k`. */
  function NameEnd(s: string, k: nat): (e: nat)
    requires k <= |s|
    ensures k <= e <= |s|
    ensures forall j :: k <= j < e ==> IsAlnum(s[j])
    ensures e < |s| ==> !IsAlnum(s[e])
    decreases |s| - k
  {
    if k < |s| && IsAlnum(s[k]) then NameEnd(s, k + 1) else k
  }

  /** The index of the first `>` at or after `k`, if there is one. */
  function FindGt(s: string, k: nat): (g: Option<nat>)
    requires k <= |s|
    ensures g.Some? ==> k <= g.value < |s| && s[g.value] == '>'
                        && forall j :: k <= j < g.value ==> s[j] != '>'
    ensures g.None? ==> forall j :: k <= j < |s| ==> s[j] != '>'
    decreases |s| - k
  {
    if k == |s| then None
    else if s[k] == '>' then Some(k)
    else FindGt(s, k + 1)
  }

  /** Attempt to match the tag pattern at `p`. The optional `/` is taken when
      present (without it the name would have to start at a `/`); the greedy
      name can only be accepted at full length, because any shorter name is
      followed by a letter or digit and `\b` fails there; `[^>]*>` then ends
      the match at the first `>` after the name. */
  function MatchAt(s: string, p: nat): (r: Option<TagMatch>)
    ensures r.Some? ==> IsPatternMatch(s, p, r.value)
  {
    if p < |s| && s[p] == '<' then
      var ns := if p + 1 < |s| && s[p + 1] == '/' then p + 2 else p + 1;
      if ns < |s| && IsLetter(s[ns]) then
        var ne := NameEnd(s, ns + 1);
        if ne < |s| && s[ne] == '_' then None
        else
          match FindGt(s, ne)
          case None => None
          case Some(g) =>
            assert s[ns..ne][0] == s[ns];
            Some(TagMatch(ns, ne, g + 1))
      else None
    else None
  }

  /** `MatchAt` finds every match the pattern admits: at a given position the
      pattern has at most one match, and it is the one `MatchAt` returns. */
  lemma MatchAtComplete(s: string, p: nat, m: TagMatch)
    requires IsPatternMatch(s, p, m)
    ensures MatchAt(s, p) == Some(m)
  {
    var ns := m.nameStart;
    assert s[ns] == s[ns..m.nameEnd][0];
    assert IsLetter(s[ns]);
    assert ns == (if p + 1 < |s| && s[p + 1] == '/' then p + 2 else p + 1);
    var ne := NameEnd(s, ns + 1);
    forall j | ns + 1 <= j < m.nameEnd
      ensures IsAlnum(s[j])
    {
      assert s[j] == s[ns..m.nameEnd][j - ns];
    }
    assert !IsAlnum(s[m.nameEnd]);
    assert ne == m.nameEnd;
    var g := FindGt(s, ne);
    assert g == Some(m.end - 1);
  }

  /** `MatchAt` is exactly the pattern: it fails only where no match exists. */
  lemma MatchAtNoneMeansNoMatch(s: string, p: nat)
    requires MatchAt(s, p).None?
    ensures NoMatchIn(s, p, p + 1)
  {
    forall q, m | p <= q < p + 1
      ensures !IsPatternMatch(s, q, m)
    {
      if IsPatternMatch(s, q, m) {
        MatchAtComplete(s, q, m);
      }
    }
  }

  function End(t: Token): nat {
    t.position + |t.fullTag|
  }

  /** A token as `extractTags` records it: its text is the matched slice of
      the input, it starts with `<` (or `</` exactly when `isClosing`),
      followed by its name, a character that is not a word character, and
      its only `>` is its last character; its line is `getLineNumber` of
      its position. */
  predicate ValidToken(s: string, t: Token) {
    var ns := if t.isClosing then 2 else 1;
    End(t) <= |s| && t.fullTag == s[t.position..End(t)]
    && ns + |t.name| < |t.fullTag|
    && t.fullTag[0] == '<'
    && (t.isClosing <==> t.fullTag[1] == '/')
    && IsTagName(t.name)
    && t.fullTag[ns..ns + |t.name|] == t.name
    && !IsWordChar(t.fullTag[ns + |t.name|])
    && t.fullTag[|t.fullTag| - 1] == '>'
    && (forall k :: 0 <= k < |t.fullTag| - 1 ==> t.fullTag[k] != '>')
    && t.line == LineNumber(s, t.position)
  }

  /** The token object built for one match (script.js, the body of the
      `while` loop): `isClosing` is `fullTag.startsWith('</')`. */
  function TokenAt(s: string, p: nat, m: TagMatch): (t: Token)
    requires IsPatternMatch(s, p, m)
    ensures ValidToken(s, t)
    ensures t.position == p && End(t) == m.end
  {
    var fullTag := s[p..m.end];
    var t := Token(s[m.nameStart..m.nameEnd], fullTag, StartsWith(fullTag, "</"), p, LineNumber(s, p));
    MatchIsValidToken(s, p, m, t);
    t
  }

  lemma MatchIsValidToken(s: string, p: nat, m: TagMatch, t: Token)
    requires IsPatternMatch(s, p, m)
    requires t == Token(s[m.nameStart..m.nameEnd], s[p..m.end], StartsWith(s[p..m.end], "</"), p, LineNumber(s, p))
    ensures ValidToken(s, t)
  {
    var fullTag := t.fullTag;
    assert fullTag[0] == '<' && fullTag[1] == s[p + 1];
    assert t.isClosing <==> m.nameStart == p + 2 by {
      if m.nameStart == p + 1 {
        assert IsLetter(s[m.nameStart..m.nameEnd][0]);
        assert fullTag[..2][1] != '/';
      } else {
        assert fullTag[..2] == "</";
      }
    }
    var ns := m.nameStart - p;
    assert |t.name| == m.nameEnd - m.nameStart;
    forall k | 0 <= k < |t.name|
      ensures fullTag[ns..ns + |t.name|][k] == t.name[k]
    {
      assert fullTag[ns + k] == s[m.nameStart + k];
    }
    assert fullTag[ns..ns + |t.name|] == t.name;
    assert fullTag[ns + |t.name|] == s[m.nameEnd];
    MatchHasOneGt(s, p, m);
  }

  /** The only `>` of a match is its last character. */
  lemma MatchHasOneGt(s: string, p: nat, m: TagMatch)
    requires IsPatternMatch(s, p, m)
    ensures forall k :: p <= k < m.end - 1 ==> s[k] != '>'
    ensures forall k :: 0 <= k < m.end - p - 1 ==> s[p..m.end][k] != '>'
  {
    forall k | p <= k < m.end - 1
      ensures s[k] != '>'
    {
      if m.nameStart <= k < m.nameEnd {
        assert s[k] == s[m.nameStart..m.nameEnd][k - m.nameStart];
      }
    }
  }

  /** One step of the search: a match at `i` becomes the next token. */
  lemma TokenizeFromMatch(s: string, i: nat, m: TagMatch)
    requires IsPatternMatch(s, i, m)
    ensures TokenizeFrom(s, i) == [TokenAt(s, i, m)] + TokenizeFrom(s, m.end)
    ensures TokenAt(s, i, m) == Token(s[m.nameStart..m.nameEnd], s[i..m.end], m.nameStart == i + 2, i,
                                      CountNewlines(s[..i]) + 1)
  {
    MatchAtComplete(s, i, m);
  }

  /** The tokens `extractTags` emits when its regular expression starts
      searching at `i`. */
  function TokenizeFrom(s: string, i: nat): seq<Token>
    requires i <= |s|
    decreases |s| - i
  {
    if i == |s| then []
    else
      match MatchAt(s, i)
      case Some(m) => [TokenAt(s, i, m)] + TokenizeFrom(s, m.end)
      case None => TokenizeFrom(s, i + 1)
  }

  function Tokenize(s: string): seq<Token> {
    TokenizeFrom(s, 0)
  }

  /** `extractTags(html)`: run the global pattern over the text and record
      one token per match. */
  method ExtractTags(html: string) returns (tags: seq<Token>)
    ensures tags == Tokenize(html)
  {
    tags := [];
    var i := 0;
    while i < |html|
      invariant i <= |html|
      invariant tags + TokenizeFrom(html, i) == Tokenize(html)
    {
      match MatchAt(html, i)
      case Some(m) =>
        var t := TokenAt(html, i, m);
        TokenizeFromEmits(html, i, m);
        tags := tags + [t];
        i := m.end;
      case None =>
        TokenizeFromSkips(html, i);
        i := i + 1;
    }
  }

  lemma TokenizeFromEmits(s: string, i: nat, m: TagMatch)
    requires i < |s| && MatchAt(s, i) == Some(m)
    ensures i < m.end <= |s|
    ensures forall pre :: pre + TokenizeFrom(s, i) == (pre + [TokenAt(s, i, m)]) + TokenizeFrom(s, m.end)
  {
  }

  lemma TokenizeFromSkips(s: string, i: nat)
    requires i < |s| && MatchAt(s, i).None?
    ensures TokenizeFrom(s, i) == TokenizeFrom(s, i + 1)
  {
  }

  /** The scanning discipline of a global `exec` loop: the token list is
      empty exactly when no match starts at or after `i`; otherwise its first
      token is the leftmost match at or after `i`, and the remaining tokens
      are those found by searching again from where that match ends. */
  lemma {:induction false} TokenizeIsLeftmost(s: string, i: nat)
    requires i <= |s|
    ensures TokenizeFrom(s, i) == [] <==> NoMatchIn(s, i, |s|)
    ensures TokenizeFrom(s, i) != [] ==>
              var t := TokenizeFrom(s, i)[0];
              NoMatchIn(s, i, t.position)
              && MatchAt(s, t.position).Some?
              && t == TokenAt(s, t.position, MatchAt(s, t.position).value)
              && TokenizeFrom(s, i)[1..] == TokenizeFrom(s, End(t))
    decreases |s| - i
  {
    if i < |s| {
      match MatchAt(s, i)
      case Some(m) =>
        assert !NoMatchIn(s, i, |s|);
      case None =>
        MatchAtNoneMeansNoMatch(s, i);
        TokenizeIsLeftmost(s, i + 1);
    }
  }

  /** Every token of `ts` is a well-formed match of `s`. */
  predicate AllValid(s: string, ts: seq<Token>) {
    forall k :: 0 <= k < |ts| ==> ValidToken(s, ts[k])
  }

  lemma AllValidCons(s: string, t: Token, rest: seq<Token>)
    requires ValidToken(s, t) && AllValid(s, rest)
    ensures AllValid(s, [t] + rest)
  {
    forall k | 0 < k < |rest| + 1
      ensures ValidToken(s, ([t] + rest)[k])
    {
      assert ([t] + rest)[k] == rest[k - 1];
    }
  }

  /** Every token is a well-formed match of the input. */
  lemma {:induction false} TokenizeFromValid(s: string, i: nat)
    requires i <= |s|
    ensures AllValid(s, TokenizeFrom(s, i))
    decreases |s| - i
  {
    if i < |s| {
      match MatchAt(s, i)
      case Some(m) =>
        TokenizeFromValid(s, m.end);
        TokenizeFromEmits(s, i, m);
        assert TokenizeFrom(s, i) == [] + TokenizeFrom(s, i);
        AllValidCons(s, TokenAt(s, i, m), TokenizeFrom(s, m.end));
      case None =>
        TokenizeFromSkips(s, i);
        TokenizeFromValid(s, i + 1);
    }
  }

  /** The tokens start at or after `i`, and each one ends before the next
      one starts. */
  predicate Ordered(ts: seq<Token>, i: nat) {
    (forall k :: 0 <= k < |ts| ==> i <= ts[k].position)
    && (forall k, l :: 0 <= k < l < |ts| ==> End(ts[k]) <= ts[l].position)
  }

  lemma OrderedCons(t: Token, rest: seq<Token>, i: nat)
    requires i <= t.position && Ordered(rest, End(t))
    ensures Ordered([t] + rest, i)
  {
    var ts := [t] + rest;
    forall k, l | 0 <= k < l < |ts|
      ensures End(ts[k]) <= ts[l].position
    {
      assert ts[l] == rest[l - 1];
      if k > 0 {
        assert ts[k] == rest[k - 1];
      }
    }
  }

  /** Matches follow each other without overlapping. */
  lemma {:induction false} TokenizeFromOrdered(s: string, i: nat)
    requires i <= |s|
    ensures Ordered(TokenizeFrom(s, i), i)
    decreases |s| - i
  {
    if i < |s| {
      match MatchAt(s, i)
      case Some(m) =>
        TokenizeFromOrdered(s, m.end);
        TokenizeFromEmits(s, i, m);
        assert TokenizeFrom(s, i) == [] + TokenizeFrom(s, i);
        OrderedCons(TokenAt(s, i, m), TokenizeFrom(s, m.end), i);
      case None =>
        TokenizeFromSkips(s, i);
        TokenizeFromOrdered(s, i + 1);
    }
  }

  /** Every extracted token is well formed (see `ValidToken`); token
      positions strictly increase and matches never overlap. */
  lemma TokensWellFormed(s: string)
    ensures forall k :: 0 <= k < |Tokenize(s)| ==> ValidToken(s, Tokenize(s)[k])
    ensures forall k, l :: 0 <= k < l < |Tokenize(s)| ==>
              Tokenize(s)[k].position < End(Tokenize(s)[k]) <= Tokenize(s)[l].position
  {
    var ts := Tokenize(s);
    TokenizeFromValid(s, 0);
    TokenizeFromOrdered(s, 0);
    forall k, l | 0 <= k < l < |ts|
      ensures ts[k].position < End(ts[k]) <= ts[l].position
    {
      assert ValidToken(s, ts[k]);
    }
  }

  /** Every token's line is 1 plus the newlines before it, so lines start at
      1 and never decrease along the token list. */
  lemma TokenLines(s: string)
    ensures forall k :: 0 <= k < |Tokenize(s)| ==>
              Tokenize(s)[k].position <= |s|
              && Tokenize(s)[k].line == CountNewlines(s[..Tokenize(s)[k].position]) + 1
    ensures forall k, l :: 0 <= k < l < |Tokenize(s)| ==>
              1 <= Tokenize(s)[k].line <= Tokenize(s)[l].line
  {
    var ts := Tokenize(s);
    TokensWellFormed(s);
    forall k, l | 0 <= k < l < |ts|
      ensures ts[k].line <= ts[l].line
    {
      LineNumberMonotone(s, ts[k].position, ts[l].position);
    }
  }
}
