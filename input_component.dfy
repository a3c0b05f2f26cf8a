/** AbstractInputComponent: an input component owns, besides its root, an
    input handle; its `apply` is `fieldApply` over the two, closed by getMatch. */
module AbstractInputComponent {
  import opened Support
  import opened Selectors
  import opened Page
  import opened Conditions
  import opened ConditionCases
  import opened Components

  predicate IsInput(comp: Component)
  {
    comp.InputComponent? || comp.TextArea? || comp.ComboBox? || comp.DateField?
  }

  /** getInputDelegate: the INPUT under the root, except that TextAreaImpl
      overrides it with the root itself. */
  function InputDelegate(comp: Component): (loc: Locator)
    requires IsInput(comp)
    ensures comp.TextArea? ==> loc == comp.root
    ensures !comp.TextArea? ==> loc == ByChain([comp.root, INPUT])
  {
    if comp.TextArea? then comp.root else ByChain([comp.root, INPUT])
  }

  /** The inherited `apply`, used by every input component that does not
      override it (DateFieldImpl does). */
  function Apply(comp: Component, p: Page, checks: TextChecks, c: Condition): (r: Result<bool, Failure>)
    requires IsInput(comp)
    ensures r.Err? <==> !FieldCase(c)
    ensures r.Err? ==> r.error == Unsupported
    ensures c.Value? ==> r == Ok(IsVisible(Find(p, InputDelegate(comp)))
                                 && checks.exactValue(Find(p, InputDelegate(comp)).value, NullToEmpty(c.expectedValue)))
  {
    GetMatch(FieldCases(c, Find(p, comp.root), Find(p, InputDelegate(comp)), checks))
  }

  /** Because a TextArea's input handle is its root, its value conditions read
      the root's value, where any other input component reads its INPUT. */
  lemma TextAreaReadsRootValue(root: Locator, p: Page, checks: TextChecks, e: Option<string>)
    ensures Apply(TextArea(root), p, checks, Value(e))
         == Ok(IsVisible(Find(p, root)) && checks.exactValue(Find(p, root).value, NullToEmpty(e)))
    ensures Apply(ComboBox(root), p, checks, Value(e))
         == Ok(IsVisible(Find(p, ByChain([root, INPUT]))) && checks.exactValue(Find(p, ByChain([root, INPUT])).value, NullToEmpty(e)))
  {
  }

  /** Two input components over the same root differ in a value condition only
      through what their input handles show. */
  lemma ValueDependsOnlyOnInputHandle(a: Component, b: Component, p: Page, checks: TextChecks, c: Condition)
    requires IsInput(a) && IsInput(b) && a.root == b.root
    requires Find(p, InputDelegate(a)) == Find(p, InputDelegate(b))
    ensures Apply(a, p, checks, c) == Apply(b, p, checks, c)
  {
  }
}
