/** The `HTMLTagMatcher` object of script.js, reduced to its validation state:
    the `stack` of open tag names, the extracted `tags` and the `errors` list,
    the stack helpers that update them, and `validateTags`. The text that the
    page reads from its input box is passed in as `input`. */
module Matcher {
  import opened Tokens
  import opened Text
  import opened Scanner
  import opened Validation

  /** How `validateTags` ended: on blank input (before touching any state),
      on input without tags (after resetting the state), or after a full
      validation. */
  datatype Outcome = EmptyInput | NoTags | Validated

  class TagMatcher {
    var stack: seq<string>
    var tags: seq<Token>
    var errors: seq<ValidationError>

    constructor ()
      ensures stack == [] && tags == [] && errors == []
    {
      stack := [];
      tags := [];
      errors := [];
    }

    /** `push(tag)`: the name goes on top of the stack. */
    method Push(tag: string)
      modifies this
      ensures stack == old(stack) + [tag]
      ensures tags == old(tags) && errors == old(errors)
    {
      stack := stack + [tag];
    }

    /** `pop()`: removes and returns the top name, or returns `null` and
        changes nothing when the stack is empty. */
    method Pop() returns (popped: Option<string>)
      modifies this
      ensures old(stack) == [] ==> popped == None && stack == old(stack)
      ensures old(stack) != [] ==>
                popped == Some(Last(old(stack))) && stack == old(stack)[..|old(stack)| - 1]
      ensures tags == old(tags) && errors == old(errors)
    {
      if |stack| > 0 {
        popped := Some(stack[|stack| - 1]);
        stack := stack[..|stack| - 1];
      } else {
        popped := None;
      }
    }

    /** `peek()`: the top name, or `null` on an empty stack. */
    function Peek(): (top: Option<string>)
      reads this
      ensures top.None? <==> stack == []
      ensures top.Some? ==> top.value == stack[|stack| - 1]
    {
      if |stack| > 0 then Some(stack[|stack| - 1]) else None
    }

    /** `isEmpty()` */
    function IsEmpty(): (b: bool)
      reads this
      ensures b <==> |stack| == 0
    {
      |stack| == 0
    }

    /** The validation loop of `validateTags` (script.js:115-144): each tag
        in turn updates the stack and the error list as `Step` prescribes. */
    method CheckNesting()
      modifies this
      ensures tags == old(tags)
      ensures ScanState(stack, errors) == Run(ScanState(old(stack), old(errors)), tags)
    {
      ghost var start := ScanState(stack, errors);
      for i := 0 to |tags|
        invariant tags == old(tags)
        invariant ScanState(stack, errors) == Run(start, tags[..i])
      {
        var tag := tags[i];
        RunSnoc(start, tags[..i], tag);
        assert tags[..i + 1] == tags[..i] + [tag];
        if !tag.isClosing {
          Push(tag.name);
        } else {
          var topTag := Peek();
          if IsEmpty() {
            errors := errors + [ExtraClosing(tag)];
          } else if topTag == Some(tag.name) {
            var _ := Pop();
          } else {
            errors := errors + [Mismatch(tag, topTag.value)];
          }
        }
      }
      assert tags[..|tags|] == tags;
    }

    /** The draining loop of `validateTags` (script.js:147-154): pops every
        remaining name and reports it as unclosed, innermost first. */
    method ReportUnclosed()
      modifies this
      ensures stack == []
      ensures errors == old(errors) + UnclosedErrors(old(stack))
      ensures tags == old(tags)
    {
      while !IsEmpty()
        invariant tags == old(tags)
        invariant errors + UnclosedErrors(stack) == old(errors) + UnclosedErrors(old(stack))
        decreases |stack|
      {
        ghost var before := stack;
        var unclosedTag := Pop();
        assert UnclosedErrors(before) == [Unclosed(unclosedTag.value)] + UnclosedErrors(stack);
        errors := errors + [Unclosed(unclosedTag.value)];
      }
    }

    /** `validateTags()`: trim the input; stop if it is blank; otherwise
        extract the tags, reset the errors and the stack, stop if there are
        no tags, and run the stack check followed by the drain of unclosed
        tags. Nothing from an earlier run survives into the result. */
    method ValidateTags(input: string) returns (outcome: Outcome)
      modifies this
      ensures Trim(input) == [] ==>
                outcome == EmptyInput
                && stack == old(stack) && tags == old(tags) && errors == old(errors)
      ensures Trim(input) != [] ==> tags == Tokenize(Trim(input)) && stack == []
      ensures Trim(input) != [] && tags == [] ==> outcome == NoTags && errors == []
      ensures Trim(input) != [] && tags != [] ==> outcome == Validated && errors == Validate(tags)
    {
      var html := Trim(input);
      if html == [] {
        return EmptyInput;
      }
      tags := ExtractTags(html);
      errors := [];
      stack := [];
      if |tags| == 0 {
        return NoTags;
      }
      CheckNesting();
      ReportUnclosed();
      return Validated;
    }
  }
}
