/** The shared match cases of ConditionCases.java. A case table is applied to
    one condition and answers None when none of its cases matches; tables are
    chained so that later cases are tried only after earlier ones missed, and
    `GetMatch` closes the chain with motif's MatchException. */
module ConditionCases {
  import opened Support
  import opened Page
  import opened Conditions

  type Match = Option<Result<bool, Failure>>

  function Answer(b: bool): Match
  {
    Some(Ok(b))
  }

  /** `matching.when(..)...` continued with further cases: the first table that matches decides. */
  function FirstMatch(first: Match, rest: Match): (m: Match)
    ensures first.Some? ==> m == first
    ensures first.None? ==> m == rest
  {
    if first.Some? then first else rest
  }

  /** `getMatch()`: the matched case's answer, or the exception of an unmatched condition. */
  function GetMatch(m: Match): (r: Result<bool, Failure>)
    ensures m.Some? ==> r == m.value
    ensures m.None? ==> r == Err(Unsupported)
  {
    if m.Some? then m.value else Err(Unsupported)
  }

  /** componentApply: ENABLED and DISABLED, read off the root's disabled marker. */
  function ComponentCases(c: Condition, root: Element): (m: Match)
    ensures m.Some? <==> c == Enabled || c == Disabled
    ensures c == Enabled ==> m == Answer(!HasMarker(root, DisabledMarker))
    ensures c == Disabled ==> m == Answer(HasMarker(root, DisabledMarker))
  {
    if c == Enabled then Answer(!HasMarker(root, DisabledMarker))
    else if c == Disabled then Answer(HasMarker(root, DisabledMarker))
    else None
  }

  predicate FieldCase(c: Condition)
  {
    c.Value? || c.ValueContains? || c in {Enabled, Disabled, Required, Readonly, Editable}
  }

  /** fieldApply: the value conditions read the input handle, the marker
      conditions the root handle; a null expectation reads as "". */
  function FieldCases(c: Condition, root: Element, input: Element, checks: TextChecks): (m: Match)
    ensures m.Some? <==> FieldCase(c)
    ensures c.Value? ==> m == Answer(IsVisible(input) && checks.exactValue(input.value, NullToEmpty(c.expectedValue)))
    ensures c.ValueContains? ==> m == Answer(IsVisible(input) && checks.value(input.value, NullToEmpty(c.expectedValueSubstring)))
    ensures c == Enabled ==> m == Answer(!HasMarker(root, DisabledMarker))
    ensures c == Disabled ==> m == Answer(HasMarker(root, DisabledMarker))
    ensures c == Required ==> m == Answer(HasMarker(root, RequiredMarker))
    ensures c == Readonly ==> m == Answer(HasMarker(root, ReadonlyMarker))
    ensures c == Editable ==> m == Answer(!HasMarker(root, ReadonlyMarker))
  {
    match c
    case Value(e) => Answer(IsVisible(input) && checks.exactValue(input.value, NullToEmpty(e)))
    case ValueContains(e) => Answer(IsVisible(input) && checks.value(input.value, NullToEmpty(e)))
    case Enabled => Answer(!HasMarker(root, DisabledMarker))
    case Disabled => Answer(HasMarker(root, DisabledMarker))
    case Required => Answer(HasMarker(root, RequiredMarker))
    case Readonly => Answer(HasMarker(root, ReadonlyMarker))
    case Editable => Answer(!HasMarker(root, ReadonlyMarker))
    case _ => None
  }

  /** Exactly one of ENABLED and DISABLED holds, in both tables. */
  lemma EnabledExactlyWhenNotDisabled(root: Element, input: Element, checks: TextChecks)
    ensures ComponentCases(Enabled, root).Some? && ComponentCases(Disabled, root).Some?
    ensures ComponentCases(Enabled, root).value == Ok(!ComponentCases(Disabled, root).value.value)
    ensures FieldCases(Enabled, root, input, checks) == ComponentCases(Enabled, root)
    ensures FieldCases(Disabled, root, input, checks) == ComponentCases(Disabled, root)
  {
  }

  /** EDITABLE is exactly the negation of READONLY. */
  lemma EditableExactlyWhenNotReadonly(root: Element, input: Element, checks: TextChecks)
    ensures FieldCases(Editable, root, input, checks).value == Ok(!FieldCases(Readonly, root, input, checks).value.value)
  {
  }

  /** A hidden or missing input fails both value conditions, whatever it holds. */
  lemma HiddenInputHasNoValue(root: Element, input: Element, checks: TextChecks, e: Option<string>)
    requires !IsVisible(input)
    ensures FieldCases(Value(e), root, input, checks) == Answer(false)
    ensures FieldCases(ValueContains(e), root, input, checks) == Answer(false)
  {
  }

  /** A null expectation is the empty string. */
  lemma NullExpectationIsEmpty(root: Element, input: Element, checks: TextChecks)
    ensures FieldCases(Value(None), root, input, checks) == FieldCases(Value(Some("")), root, input, checks)
    ensures FieldCases(ValueContains(None), root, input, checks) == FieldCases(ValueContains(Some("")), root, input, checks)
  {
  }

  /** When Selenide's exactValue is plain equality, an empty or null expected
      value matches only a visible input whose value is empty. */
  lemma EmptyExpectationMatchesOnlyEmpty(root: Element, input: Element, checks: TextChecks, e: Option<string>)
    requires forall a: string, b: string :: checks.exactValue(a, b) == (a == b)
    requires IsNullOrEmpty(e)
    ensures FieldCases(Value(e), root, input, checks) == Answer(IsVisible(input) && input.value == "")
  {
  }

  /** Value conditions read only the input handle; marker conditions only the root. */
  lemma CasesReadTheirOwnHandle(c: Condition, root1: Element, root2: Element,
                                input1: Element, input2: Element, checks: TextChecks)
    ensures c.Value? || c.ValueContains? ==>
      FieldCases(c, root1, input1, checks) == FieldCases(c, root2, input1, checks)
    ensures c in {Enabled, Disabled, Required, Readonly, Editable} ==>
      FieldCases(c, root1, input1, checks) == FieldCases(c, root1, input2, checks)
  {
  }

  /** Neither table closes the match: a condition outside its cases stays
      unmatched, so cases chained after it decide, and `GetMatch` alone fails. */
  lemma TablesLeaveOthersOpen(c: Condition, root: Element, input: Element, checks: TextChecks, rest: Match)
    ensures !FieldCase(c) ==> FirstMatch(FieldCases(c, root, input, checks), rest) == rest
    ensures c != Enabled && c != Disabled ==> FirstMatch(ComponentCases(c, root), rest) == rest
    ensures !FieldCase(c) ==> GetMatch(FieldCases(c, root, input, checks)) == Err(Unsupported)
  {
  }
}
