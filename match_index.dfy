/** The per-tag match lookups that the tag list uses to label each tag
    (`findMatchingOpeningTag` and `findMatchingClosingTag`). Each scans away
    from the given tag with a local array that is only ever consulted through
    its length; here that length is a counter, `depth`. The array grows for
    every tag passed except a partner (same name, opposite kind), and a
    partner either ends the search, when the array is empty, or shrinks it.
    Both functions read `this.tags`, passed here as `tags`. */
module MatchIndex {
  import opened Tokens

  /** `t` is what a search for `name` stops at: a tag of that name whose
      kind is `closing`. */
  predicate IsPartner(t: Token, name: string, closing: bool) {
    t.isClosing == closing && t.name == name
  }

  /** How passing `t` changes the local array's length, as long as the array
      is not empty: a partner pops, everything else pushes. */
  function Weight(t: Token, name: string, closing: bool): int {
    if IsPartner(t, name, closing) then -1 else 1
  }

  /** The local array's length after passing the tags of `seg` (in either
      order) without stopping. */
  function Balance(seg: seq<Token>, name: string, closing: bool): int {
    if seg == [] then 0 else Weight(seg[0], name, closing) + Balance(seg[1..], name, closing)
  }

  lemma {:induction false} BalanceAppend(seg: seq<Token>, t: Token, name: string, closing: bool)
    ensures Balance(seg + [t], name, closing) == Balance(seg, name, closing) + Weight(t, name, closing)
  {
    if seg == [] {
      assert seg + [t] == [t];
    } else {
      assert (seg + [t])[1..] == seg[1..] + [t];
      BalanceAppend(seg[1..], t, name, closing);
    }
  }

  /** Index `k` qualifies as the opening partner of the closing tag at `ci`:
      an opening tag of the same name, with the tags in between balancing
      the local array back to empty. */
  predicate OpensFor(tags: seq<Token>, ci: int, k: int)
    requires 0 <= ci < |tags|
  {
    0 <= k < ci && IsPartner(tags[k], tags[ci].name, false)
    && Balance(tags[k + 1..ci], tags[ci].name, false) == 0
  }

  /** Index `k` qualifies as the closing partner of the tag at `oi`. */
  predicate ClosesFor(tags: seq<Token>, oi: int, k: int)
    requires 0 <= oi < |tags|
  {
    oi < k < |tags| && IsPartner(tags[k], tags[oi].name, true)
    && Balance(tags[oi + 1..k], tags[oi].name, true) == 0
  }

  /** `findMatchingOpeningTag(closingIndex)`: the nearest qualifying index
      before `closingIndex`, or -1 when there is none. */
  method FindMatchingOpeningTag(tags: seq<Token>, closingIndex: int) returns (j: int)
    requires 0 <= closingIndex < |tags|
    ensures j == -1 || OpensFor(tags, closingIndex, j)
    ensures forall k :: j < k < closingIndex ==> !OpensFor(tags, closingIndex, k)
  {
    var closingTag := tags[closingIndex];
    var depth: nat := 0;
    var i := closingIndex - 1;
    while i >= 0
      invariant -1 <= i < closingIndex
      invariant depth == Balance(tags[i + 1..closingIndex], closingTag.name, false)
      invariant forall k :: i < k < closingIndex ==> !OpensFor(tags, closingIndex, k)
    {
      var tag := tags[i];
      assert tags[i..closingIndex] == [tag] + tags[i + 1..closingIndex];
      if !tag.isClosing {
        if tag.name == closingTag.name {
          if depth == 0 {
            return i;
          }
          depth := depth - 1;
        } else {
          depth := depth + 1;
        }
      } else {
        depth := depth + 1;
      }
      i := i - 1;
    }
    return -1;
  }

  /** `findMatchingClosingTag(openingIndex)`: the nearest qualifying index
      after `openingIndex`, or -1 when there is none. */
  method FindMatchingClosingTag(tags: seq<Token>, openingIndex: int) returns (j: int)
    requires 0 <= openingIndex < |tags|
    ensures j == -1 || ClosesFor(tags, openingIndex, j)
    ensures forall k :: openingIndex < k < |tags| && (j == -1 || k < j) ==> !ClosesFor(tags, openingIndex, k)
  {
    var openingTag := tags[openingIndex];
    var depth: nat := 0;
    var i := openingIndex + 1;
    while i < |tags|
      invariant openingIndex < i <= |tags|
      invariant depth == Balance(tags[openingIndex + 1..i], openingTag.name, true)
      invariant forall k :: openingIndex < k < i ==> !ClosesFor(tags, openingIndex, k)
    {
      var tag := tags[i];
      assert tags[openingIndex + 1..i + 1] == tags[openingIndex + 1..i] + [tag];
      BalanceAppend(tags[openingIndex + 1..i], tag, openingTag.name, true);
      if tag.isClosing {
        if tag.name == openingTag.name {
          if depth == 0 {
            return i;
          }
          depth := depth - 1;
        } else {
          depth := depth + 1;
        }
      } else {
        depth := depth + 1;
      }
      i := i + 1;
    }
    return -1;
  }

  /** An opening tag directly followed by its closing tag is matched in
      both directions. */
  lemma AdjacentPairMatches(tags: seq<Token>, i: int)
    requires 0 <= i && i + 1 < |tags|
    requires !tags[i].isClosing && tags[i + 1].isClosing && tags[i].name == tags[i + 1].name
    ensures OpensFor(tags, i + 1, i) && ClosesFor(tags, i, i + 1)
  {
  }

  /** In `<a><b></b></a>` (any two distinct names) neither outer tag finds
      its partner: passing `<b>` and `</b>` leaves the local array at length
      2 when the search reaches the other outer tag. */
  lemma NestedOuterPairUnmatched(tags: seq<Token>)
    requires |tags| == 4
    requires !tags[0].isClosing && !tags[1].isClosing && tags[2].isClosing && tags[3].isClosing
    requires tags[0].name == tags[3].name && tags[1].name == tags[2].name && tags[0].name != tags[1].name
    ensures forall k :: !OpensFor(tags, 3, k)
    ensures forall k :: !ClosesFor(tags, 0, k)
  {
    var a := tags[0].name;
    var mid := tags[1..3];
    assert mid[0] == tags[1] && mid[1..] == [tags[2]] && [tags[2]][1..] == [];
    assert Balance([tags[2]], a, false) == 1 && Balance([tags[2]], a, true) == 1;
    assert Balance(mid, a, false) == 2 && Balance(mid, a, true) == 2;
  }
}
