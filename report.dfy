/** The figures of the validation summary (the "Validation Summary" block
    of `displayDetailedReport`) and the valid/invalid verdict of
    `displayResults`. */
module Report {
  import opened Tokens
  import opened Validation

  datatype Counts = Counts(total: nat, opening: nat, closing: nat, errorCount: nat)

  /** `tags.filter(t => !t.isClosing).length` */
  function CountOpening(tags: seq<Token>): nat {
    if tags == [] then 0 else (if tags[0].isClosing then 0 else 1) + CountOpening(tags[1..])
  }

  /** `tags.filter(t => t.isClosing).length` */
  function CountClosing(tags: seq<Token>): nat {
    if tags == [] then 0 else (if tags[0].isClosing then 1 else 0) + CountClosing(tags[1..])
  }

  /** Every tag is either opening or closing. */
  lemma {:induction false} OpeningPlusClosing(tags: seq<Token>)
    ensures CountOpening(tags) + CountClosing(tags) == |tags|
  {
    if tags != [] {
      OpeningPlusClosing(tags[1..]);
    }
  }

  /** The summary counts: total tags, opening and closing tags (which add up
      to the total), and the number of errors. */
  function Summary(tags: seq<Token>, errors: seq<ValidationError>): (c: Counts)
    ensures c.total == |tags| && c.errorCount == |errors|
    ensures c.opening + c.closing == c.total
  {
    OpeningPlusClosing(tags);
    Counts(|tags|, CountOpening(tags), CountClosing(tags), |errors|)
  }

  /** `isValid` in `displayResults`: no error at all. */
  predicate IsValid(errors: seq<ValidationError>) {
    |errors| == 0
  }

  /** A properly nested document is reported valid, with as many opening
      tags as closing tags. */
  lemma WellNestedSummary(forest: seq<Element>, tags: seq<Token>)
    requires Shaped(tags, Serialize(forest))
    ensures IsValid(Validate(tags))
    ensures CountOpening(tags) == CountClosing(tags)
  {
    WellNestedIsValid(forest, tags);
    WellNestedBalanced(forest, tags);
  }

  lemma {:induction false} CountsAppend(a: seq<Token>, b: seq<Token>)
    ensures CountOpening(a + b) == CountOpening(a) + CountOpening(b)
    ensures CountClosing(a + b) == CountClosing(a) + CountClosing(b)
  {
    if a == [] {
      assert a + b == b;
    } else {
      assert (a + b)[1..] == a[1..] + b;
      CountsAppend(a[1..], b);
    }
  }

  /** Counting over an opening tag, a stretch, a closing tag and the rest. */
  lemma CountsElement(tags: seq<Token>, n: nat)
    requires n + 2 <= |tags| && !tags[0].isClosing && tags[n + 1].isClosing
    ensures CountOpening(tags) == 1 + CountOpening(tags[1..n + 1]) + CountOpening(tags[n + 2..])
    ensures CountClosing(tags) == 1 + CountClosing(tags[1..n + 1]) + CountClosing(tags[n + 2..])
  {
    var close := [tags[n + 1]];
    assert tags[1..] == tags[1..n + 1] + (close + tags[n + 2..]);
    CountsAppend(tags[1..n + 1], close + tags[n + 2..]);
    CountsAppend(close, tags[n + 2..]);
    assert close[1..] == [];
  }

  lemma {:induction false} WellNestedBalanced(forest: seq<Element>, tags: seq<Token>)
    requires Shaped(tags, Serialize(forest))
    ensures CountOpening(tags) == CountClosing(tags)
    decreases forest
  {
    if forest != [] {
      var e := forest[0];
      var inner := Serialize(e.children);
      var others := Serialize(forest[1..]);
      var n := |inner|;
      var shape := Serialize(forest);
      assert shape == [(e.name, false)] + inner + [(e.name, true)] + others;
      assert shape[1..1 + n] == inner && shape[2 + n..] == others;
      assert shape[0] == (e.name, false) && shape[1 + n] == (e.name, true);
      ShapedSlice(tags, shape, 1, 1 + n);
      ShapedSlice(tags, shape, 2 + n, |tags|);
      WellNestedBalanced(e.children, tags[1..1 + n]);
      WellNestedBalanced(forest[1..], tags[2 + n..]);
      CountsElement(tags, n);
    }
  }
}
