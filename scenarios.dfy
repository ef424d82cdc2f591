/** Concrete inputs that pin down the edge cases of the tag pattern and the
    three kinds of error, from the text all the way to the error list. */
module Scenarios {
  import opened Tokens
  import opened Text
  import opened Scanner
  import opened Validation
  import opened MatchIndex

  /** A self-closing tag is an opening tag, so it is reported unclosed. */
  lemma SelfClosingIsOpener()
    ensures Tokenize("<br/>") == [Token("br", "<br/>", false, 0, 1)]
    ensures Validate(Tokenize("<br/>")) == [Unclosed("br")]
  {
    var s := "<br/>";
    assert s[1..3] == "br";
    MatchAtComplete(s, 0, TagMatch(1, 3, 5));
    assert s[..0] == [];
    assert TokenAt(s, 0, TagMatch(1, 3, 5)) == Token("br", "<br/>", false, 0, 1);
    assert Tokenize(s) == [Token("br", "<br/>", false, 0, 1)];
    var ts := Tokenize(s);
    assert ts[1..] == [];
    assert Run(Init, ts) == ScanState(["br"], []);
    assert ["br"][..0] == [];
    assert UnclosedErrors(["br"]) == [Unclosed("br")];
  }

  /** A `<` that cannot start a tag is skipped. */
  lemma DoctypeIsSkipped()
    ensures Tokenize("<!x>") == []
  {
    var s := "<!x>";
    assert MatchAt(s, 0) == None;
    assert TokenizeFrom(s, 0) == TokenizeFrom(s, 1) == TokenizeFrom(s, 2) == TokenizeFrom(s, 3) == [];
  }

  /** `\b` rejects a name followed by `_`. */
  lemma UnderscoreRejectsName()
    ensures Tokenize("<a_b>") == []
  {
    var s := "<a_b>";
    assert MatchAt(s, 0) == None;
    assert TokenizeFrom(s, 0) == TokenizeFrom(s, 1) == TokenizeFrom(s, 2) == TokenizeFrom(s, 3)
        == TokenizeFrom(s, 4) == [];
  }

  /** `[^>]*` runs over another `<` up to the first `>`. */
  lemma LessThanInsideTagIsSwallowed()
    ensures Tokenize("<a <b>") == [Token("a", "<a <b>", false, 0, 1)]
  {
    var s := "<a <b>";
    assert s[1..2] == "a";
    MatchAtComplete(s, 0, TagMatch(1, 2, 6));
    assert s[..0] == [];
    assert TokenAt(s, 0, TagMatch(1, 2, 6)) == Token("a", "<a <b>", false, 0, 1);
  }

  lemma MismatchTail(s: string)
    requires s == "<a></b>"
    ensures TokenizeFrom(s, 3) == [Token("b", "</b>", true, 3, 1)]
  {
    NoNewlines(s[..3]);
    assert s[5..6] == "b" && s[3..7] == "</b>";
    TokenizeFromMatch(s, 3, TagMatch(5, 6, 7));
  }

  lemma MismatchTokens(s: string)
    requires s == "<a></b>"
    ensures Tokenize(s) == [Token("a", "<a>", false, 0, 1), Token("b", "</b>", true, 3, 1)]
  {
    MismatchTail(s);
    assert s[..0] == [] && s[1..2] == "a" && s[0..3] == "<a>";
    TokenizeFromMatch(s, 0, TagMatch(1, 2, 3));
  }

  /** A closing tag that differs from the innermost open tag is a mismatch
      and does not pop it, so the opener is also reported unclosed. */
  lemma MismatchThenUnclosed()
    ensures Tokenize("<a></b>") == [Token("a", "<a>", false, 0, 1), Token("b", "</b>", true, 3, 1)]
    ensures Validate(Tokenize("<a></b>")) == [Mismatch(Token("b", "</b>", true, 3, 1), "a"), Unclosed("a")]
  {
    MismatchTokens("<a></b>");
    var ta, tb := Token("a", "<a>", false, 0, 1), Token("b", "</b>", true, 3, 1);
    var ts := [ta, tb];
    assert ts[1..] == [tb] && [tb][1..] == [];
    assert Step(Init, ta) == ScanState(["a"], []);
    assert Step(ScanState(["a"], []), tb) == ScanState(["a"], [Mismatch(tb, "a")]);
    assert Run(Init, ts) == ScanState(["a"], [Mismatch(tb, "a")]);
    assert ["a"][..0] == [];
    assert UnclosedErrors(["a"]) == [Unclosed("a")];
  }

  /** A closing tag with nothing open is an extra closing tag, and nothing
      is left unclosed. */
  lemma LoneClosingTag()
    ensures Tokenize("</a>") == [Token("a", "</a>", true, 0, 1)]
    ensures Validate(Tokenize("</a>")) == [ExtraClosing(Token("a", "</a>", true, 0, 1))]
  {
    var s := "</a>";
    var t := Token("a", "</a>", true, 0, 1);
    assert s[2..3] == "a";
    MatchAtComplete(s, 0, TagMatch(2, 3, 4));
    assert s[..0] == [];
    assert TokenAt(s, 0, TagMatch(2, 3, 4)) == t;
    assert [t][1..] == [];
    assert Run(Init, [t]) == ScanState([], [ExtraClosing(t)]);
  }

  lemma TwoLineTail(s: string)
    requires s == "<a>\n</a>"
    ensures TokenizeFrom(s, 3) == [Token("a", "</a>", true, 4, 2)]
  {
    assert s[..4] == "<a>\n";
    assert CountNewlines("<a>\n") == 1;
    assert s[6..7] == "a" && s[4..8] == "</a>";
    TokenizeFromMatch(s, 4, TagMatch(6, 7, 8));
    assert MatchAt(s, 3) == None;
    assert TokenizeFrom(s, 3) == TokenizeFrom(s, 4);
  }

  lemma TwoLineTokens(s: string)
    requires s == "<a>\n</a>"
    ensures Tokenize(s) == [Token("a", "<a>", false, 0, 1), Token("a", "</a>", true, 4, 2)]
  {
    TwoLineTail(s);
    assert s[..0] == [] && s[1..2] == "a" && s[0..3] == "<a>";
    TokenizeFromMatch(s, 0, TagMatch(1, 2, 3));
  }

  /** A tag after a newline is on line 2; a pair split over two lines is
      still a valid pair. */
  lemma LinesCountNewlines()
    ensures Tokenize("<a>\n</a>") == [Token("a", "<a>", false, 0, 1), Token("a", "</a>", true, 4, 2)]
    ensures Validate(Tokenize("<a>\n</a>")) == []
  {
    TwoLineTokens("<a>\n</a>");
    var t0, t1 := Token("a", "<a>", false, 0, 1), Token("a", "</a>", true, 4, 2);
    var ts := [t0, t1];
    assert ts[1..] == [t1] && [t1][1..] == [];
    assert Step(Init, t0) == ScanState(["a"], []);
    assert ["a"][..0] == [];
    assert Run(Init, ts) == Init;
  }

  /** On `<a><b></b></a>` (any two distinct names, anywhere in the text)
      the validator finds nothing wrong, while the match lookups pair the
      inner tags and leave both outer tags without a partner. */
  lemma IndexerDisagreesWithValidator(ts: seq<Token>)
    requires |ts| == 4 && ts[0].name != ts[1].name
    requires Shaped(ts, [(ts[0].name, false), (ts[1].name, false), (ts[1].name, true), (ts[0].name, true)])
    ensures Validate(ts) == []
    ensures forall k :: !OpensFor(ts, 3, k)
    ensures forall k :: !ClosesFor(ts, 0, k)
    ensures OpensFor(ts, 2, 1) && ClosesFor(ts, 1, 2)
  {
    var a, b := ts[0].name, ts[1].name;
    var forest := [Element(a, [Element(b, [])])];
    assert Serialize([Element(b, [])]) == [(b, false), (b, true)];
    assert Serialize(forest) == [(a, false), (b, false), (b, true), (a, true)];
    WellNestedIsValid(forest, ts);
    NestedOuterPairUnmatched(ts);
    AdjacentPairMatches(ts, 1);
  }

  /** Input made only of whitespace trims to nothing. */
  lemma BlankInputIsEmpty()
    ensures Trim(" \n\t ") == []
  {
  }
}
