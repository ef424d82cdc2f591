/** The nesting check of `validateTags`, as a specification over values: one
    pass over the tokens with a stack of open tag names, then the drain of
    whatever is still open. The class `TagMatcher` runs the same algorithm on
    its fields and is proved to produce exactly `Validate`. */
module Validation {
  import opened Tokens

  /** An entry of `this.errors`. An `Unclosed` error carries only the tag
      name (script.js builds `{ name: unclosedTag }` for it). */
  datatype ValidationError =
    | ExtraClosing(tag: Token)
    | Mismatch(tag: Token, expected: string)
    | Unclosed(name: string)

  /** `this.stack` (innermost name last) and `this.errors` during the pass. */
  datatype ScanState = ScanState(stack: seq<string>, errors: seq<ValidationError>)

  const Init: ScanState := ScanState([], [])

  /** One iteration of the validation loop. An opening tag pushes its name; a
      closing tag on an empty stack is an extra closing tag; one that names
      the top of the stack pops it; any other closing tag is a mismatch and
      leaves the stack as it was. Errors are only ever appended. */
  function Step(st: ScanState, t: Token): (r: ScanState)
    ensures |st.errors| <= |r.errors| <= |st.errors| + 1
    ensures r.errors[..|st.errors|] == st.errors
    ensures |r.errors| == |st.errors| + 1 <==> t.isClosing && (st.stack == [] || Last(st.stack) != t.name)
    ensures |r.errors| == |st.errors| + 1 ==>
              r.stack == st.stack
              && r.errors[|st.errors|] == if st.stack == [] then ExtraClosing(t) else Mismatch(t, Last(st.stack))
    ensures !t.isClosing ==> r.stack == st.stack + [t.name]
    ensures t.isClosing && st.stack != [] && Last(st.stack) == t.name ==>
              r.stack == st.stack[..|st.stack| - 1]
  {
    if !t.isClosing then ScanState(st.stack + [t.name], st.errors)
    else if st.stack == [] then ScanState(st.stack, st.errors + [ExtraClosing(t)])
    else if Last(st.stack) == t.name then ScanState(st.stack[..|st.stack| - 1], st.errors)
    else ScanState(st.stack, st.errors + [Mismatch(t, Last(st.stack))])
  }

  /** The loop over the tokens, from state `st`. */
  function Run(st: ScanState, ts: seq<Token>): ScanState
    decreases ts
  {
    if ts == [] then st else Run(Step(st, ts[0]), ts[1..])
  }

  /** The errors the draining loop appends for a stack: one `Unclosed` per
      entry, popped from the top. */
  function UnclosedErrors(stack: seq<string>): seq<ValidationError>
  {
    if stack == [] then [] else [Unclosed(Last(stack))] + UnclosedErrors(stack[..|stack| - 1])
  }

  /** The final `this.errors` of a run of `validateTags` over `ts`. */
  function Validate(ts: seq<Token>): seq<ValidationError>
  {
    var r := Run(Init, ts);
    r.errors + UnclosedErrors(r.stack)
  }

  /** Running over `a + b` is running over `a`, then over `b`. */
  lemma {:induction false} RunConcat(st: ScanState, a: seq<Token>, b: seq<Token>)
    ensures Run(st, a + b) == Run(Run(st, a), b)
    decreases a
  {
    if a == [] {
      assert a + b == b;
    } else {
      assert (a + b)[0] == a[0] && (a + b)[1..] == a[1..] + b;
      RunConcat(Step(st, a[0]), a[1..], b);
    }
  }

  /** The loop state after one more token is one more `Step`. */
  lemma RunSnoc(st: ScanState, ts: seq<Token>, t: Token)
    ensures Run(st, ts + [t]) == Step(Run(st, ts), t)
  {
    RunConcat(st, ts, [t]);
    assert [t][1..] == [];
  }

  /** The pass never removes or rewrites an error: it only appends ones
      about closing tags of `ts`, never an `Unclosed` one. */
  lemma {:induction false} RunAppendsErrors(st: ScanState, ts: seq<Token>)
    ensures |st.errors| <= |Run(st, ts).errors|
    ensures Run(st, ts).errors[..|st.errors|] == st.errors
    ensures forall k :: |st.errors| <= k < |Run(st, ts).errors| ==>
              var e := Run(st, ts).errors[k];
              !e.Unclosed? && e.tag.isClosing && e.tag in ts
    decreases ts
  {
    if ts != [] {
      var s1 := Step(st, ts[0]);
      RunAppendsErrors(s1, ts[1..]);
      var es := Run(st, ts).errors;
      forall k | |st.errors| <= k < |es|
        ensures !es[k].Unclosed? && es[k].tag.isClosing && es[k].tag in ts
      {
        if k >= |s1.errors| {
          assert es[k].tag in ts[1..];
        } else {
          assert es[k] == s1.errors[k];
        }
      }
      assert es[..|st.errors|] == es[..|s1.errors|][..|st.errors|];
    }
  }

  /** In-scan errors come out in token order: the errors found in the first
      `i` tokens are a prefix of those found in all of them. */
  lemma ScanErrorsInTokenOrder(ts: seq<Token>, i: nat)
    requires i <= |ts|
    ensures Run(Init, ts[..i]).errors <= Run(Init, ts).errors
  {
    assert ts == ts[..i] + ts[i..];
    RunConcat(Init, ts[..i], ts[i..]);
    RunAppendsErrors(Run(Init, ts[..i]), ts[i..]);
  }

  /** The drain reports every stack entry once, innermost first. */
  lemma {:induction false} UnclosedErrorsLifo(stack: seq<string>)
    ensures |UnclosedErrors(stack)| == |stack|
    ensures forall k :: 0 <= k < |stack| ==> UnclosedErrors(stack)[k] == Unclosed(stack[|stack| - 1 - k])
  {
    if stack != [] {
      var rest := stack[..|stack| - 1];
      var u, ur := UnclosedErrors(stack), UnclosedErrors(rest);
      UnclosedErrorsLifo(rest);
      assert u == [Unclosed(stack[|stack| - 1])] + ur;
      forall k | 1 <= k < |stack|
        ensures u[k] == Unclosed(stack[|stack| - 1 - k])
      {
        assert u[k] == ur[k - 1];
        assert rest[|rest| - 1 - (k - 1)] == stack[|stack| - 1 - k];
      }
    }
  }

  /** The shape of the error list: first the in-scan errors (extra closing
      tags and mismatches, each about a closing token of the input), then
      one `Unclosed` per name left on the stack, from the top down. */
  lemma ErrorOrder(ts: seq<Token>)
    ensures var r := Run(Init, ts);
            |Validate(ts)| == |r.errors| + |r.stack|
            && (forall k :: 0 <= k < |r.errors| ==>
                  !Validate(ts)[k].Unclosed? && Validate(ts)[k].tag.isClosing && Validate(ts)[k].tag in ts)
            && (forall k :: |r.errors| <= k < |Validate(ts)| ==>
                  Validate(ts)[k] == Unclosed(r.stack[|r.stack| - 1 - (k - |r.errors|)]))
  {
    var r := Run(Init, ts);
    RunAppendsErrors(Init, ts);
    UnclosedErrorsLifo(r.stack);
  }

  /** A document tree: an element with a tag name and its child elements. */
  datatype Element = Element(name: string, children: seq<Element>)

  /** The `(name, isClosing)` sequence of a properly nested document: each
      element is its opening tag, its children, and its closing tag. */
  function Serialize(forest: seq<Element>): seq<(string, bool)>
    decreases forest
  {
    if forest == [] then []
    else [(forest[0].name, false)] + Serialize(forest[0].children) + [(forest[0].name, true)]
         + Serialize(forest[1..])
  }

  /** The tokens have the names and the opening/closing kinds of `shape`. */
  predicate Shaped(ts: seq<Token>, shape: seq<(string, bool)>) {
    |ts| == |shape| && forall k :: 0 <= k < |ts| ==> ts[k].name == shape[k].0 && ts[k].isClosing == shape[k].1
  }

  lemma ShapedSlice(ts: seq<Token>, shape: seq<(string, bool)>, lo: nat, hi: nat)
    requires Shaped(ts, shape) && lo <= hi <= |ts|
    ensures Shaped(ts[lo..hi], shape[lo..hi])
  {
  }

  /** An opening tag, a stretch that leaves the pushed state alone, and the
      matching closing tag together leave the loop state unchanged. */
  lemma RunElement(st: ScanState, ts: seq<Token>, n: nat)
    requires n + 2 <= |ts|
    requires !ts[0].isClosing && ts[n + 1].isClosing && ts[n + 1].name == ts[0].name
    requires Run(Step(st, ts[0]), ts[1..n + 1]) == Step(st, ts[0])
    ensures Run(st, ts) == Run(st, ts[n + 2..])
  {
    var s1 := Step(st, ts[0]);
    assert ts[1..] == ts[1..n + 1] + ([ts[n + 1]] + ts[n + 2..]);
    RunConcat(s1, ts[1..n + 1], [ts[n + 1]] + ts[n + 2..]);
    assert Step(s1, ts[n + 1]) == st by {
      assert (st.stack + [ts[0].name])[..|st.stack|] == st.stack;
    }
  }

  /** A properly nested stretch of tokens leaves the loop state as it found it. */
  lemma {:induction false} WellNestedRun(forest: seq<Element>, ts: seq<Token>, st: ScanState)
    requires Shaped(ts, Serialize(forest))
    ensures Run(st, ts) == st
    decreases forest
  {
    if forest != [] {
      var e := forest[0];
      var inner := Serialize(e.children);
      var others := Serialize(forest[1..]);
      var n := |inner|;
      var shape := Serialize(forest);
      assert shape == [(e.name, false)] + inner + [(e.name, true)] + others;
      assert shape[1..1 + n] == inner && shape[2 + n..] == others;
      assert shape[0] == (e.name, false) && shape[1 + n] == (e.name, true);
      ShapedSlice(ts, shape, 1, 1 + n);
      ShapedSlice(ts, shape, 2 + n, |ts|);
      WellNestedRun(e.children, ts[1..1 + n], Step(st, ts[0]));
      RunElement(st, ts, n);
      WellNestedRun(forest[1..], ts[2 + n..], st);
    }
  }

  /** A properly nested token sequence produces no error, and its pass ends
      with an empty stack. */
  lemma WellNestedIsValid(forest: seq<Element>, ts: seq<Token>)
    requires Shaped(ts, Serialize(forest))
    ensures Run(Init, ts).stack == []
    ensures Validate(ts) == []
  {
    WellNestedRun(forest, ts, Init);
  }
}
