/** DateFieldImpl: an input component whose `apply` is its own table, built on
    componentApply alone, so the inherited fieldApply cases are gone. */
module DateFieldImpl {
  import opened Support
  import opened Selectors
  import opened Page
  import opened Conditions
  import opened ConditionCases
  import opened Components
  import AbstractInputComponent

  /** The date part of the field, which DATEVALUE reads. */
  function DatePart(root: Locator): Locator
  {
    ByChain([root, DATEPART])
  }

  /** `getInputDelegate()` is not overridden: the INPUT under the root. */
  function Input(root: Locator): Locator
  {
    AbstractInputComponent.InputDelegate(DateField(root))
  }

  function OwnCases(root: Locator, p: Page, checks: TextChecks, c: Condition): Match
  {
    match c
    case DateValue(expected) =>
      var part := Find(p, DatePart(root));
      Answer(part.present && checks.exactValue(part.value, expected))
    case _ => None
  }

  function Apply(root: Locator, p: Page, checks: TextChecks, c: Condition): (r: Result<bool, Failure>)
    ensures r.Err? <==> !(c == Enabled || c == Disabled || c.DateValue?)
    ensures r.Err? ==> r.error == Unsupported
    ensures c == Enabled ==> r == Ok(!HasMarker(Find(p, root), DisabledMarker))
    ensures c == Disabled ==> r == Ok(HasMarker(Find(p, root), DisabledMarker))
    ensures c.DateValue? ==>
      r == Ok(Find(p, DatePart(root)).present && checks.exactValue(Find(p, DatePart(root)).value, c.expectedDate))
  {
    GetMatch(FirstMatch(ComponentCases(c, Find(p, root)), OwnCases(root, p, checks, c)))
  }

  /** The override replaces the inherited table instead of extending it: every
      fieldApply case other than ENABLED and DISABLED, answered by an input
      component that keeps the inherited `apply`, is unsupported here. */
  lemma OverrideDropsFieldCases(root: Locator, p: Page, checks: TextChecks, c: Condition)
    requires FieldCase(c) && c != Enabled && c != Disabled
    ensures Apply(root, p, checks, c) == Err(Unsupported)
    ensures AbstractInputComponent.Apply(InputComponent(root), p, checks, c).Ok?
  {
  }

  /** ENABLED and DISABLED are answered as by the inherited table. */
  lemma OverrideKeepsComponentCases(root: Locator, p: Page, checks: TextChecks, c: Condition)
    requires c == Enabled || c == Disabled
    ensures Apply(root, p, checks, c) == AbstractInputComponent.Apply(DateField(root), p, checks, c)
  {
  }

  /** `getDateValue()`: once the input is visible and enabled, its value. */
  function GetDateValue(p: Page, root: Locator): (r: Result<string, Failure>)
    ensures r.Ok? <==> IsVisible(Find(p, Input(root))) && Find(p, Input(root)).enabled
    ensures r.Ok? ==> r.value == Find(p, Input(root)).value
    ensures r.Err? ==> r.error.ConditionTimeout? && r.error.subject == Input(root)
  {
    var xs := [BeVisible, BeEnabled];
    assert xs[0] == BeVisible && xs[1] == BeEnabled;
    match FirstUnmet(p, Input(root), xs)
    case Some(f) => Err(f)
    case None => Ok(Find(p, Input(root)).value)
  }

  /** `setDateValue(value)`: wait until the input is visible, enabled and not
      readonly, click it, then send HOME and the text, which the input takes
      in at its start. */
  function SetDateValueRun(p: Page, root: Locator, value: string): Run
  {
    var loc := Input(root);
    match FirstUnmet(p, loc, [BeVisible, BeEnabled, NotBeReadonly])
    case Some(f) => Failed(p, f)
    case None =>
      var e := Find(p, loc);
      Run(Put(p, loc, e.(value := value + e.value)), [Click(loc), SendKeys(loc, [Home, Chars(value)])], None)
  }

  method SetDateValue(b: Browser, root: Locator, value: string) returns (r: Result<Component, Failure>)
    modifies b
    ensures var run := SetDateValueRun(old(b.page), root, value);
      b.page == run.page && b.log == old(b.log) + run.actions && r == Returned(run, DateField(root))
  {
    var loc := Input(root);
    var f := FirstUnmet(b.page, loc, [BeVisible, BeEnabled, NotBeReadonly]);
    if f.Some? {
      return Err(f.value);
    }
    b.log := b.log + [Click(loc)];
    var e := Find(b.page, loc);
    b.log := b.log + [SendKeys(loc, [Home, Chars(value)])];
    b.page := Put(b.page, loc, e.(value := value + e.value));
    r := Ok(DateField(root));
  }

  /** A successful `setDateValue(v)` leaves the input readable by
      `getDateValue()`, starting with v; HOME goes out before the text. */
  lemma SetDateValueThenGet(p: Page, root: Locator, value: string)
    ensures var run := SetDateValueRun(p, root, value);
      run.failure.None? ==>
        GetDateValue(run.page, root) == Ok(value + Find(p, Input(root)).value)
        && run.actions[|run.actions| - 1] == SendKeys(Input(root), [Home, Chars(value)])
  {
    var xs := [BeVisible, BeEnabled, NotBeReadonly];
    assert xs[0] == BeVisible && xs[1] == BeEnabled;
  }

  /** `setDateValue` goes ahead only when the input is visible, enabled and
      not readonly; otherwise it fails on the first of those waits that does
      not hold, before any click. */
  lemma SetDateValueGuards(p: Page, root: Locator, value: string)
    ensures var run := SetDateValueRun(p, root, value);
      var e := Find(p, Input(root));
      (run.failure.None? <==> IsVisible(e) && e.enabled && !e.readonly)
      && (!IsVisible(e) ==> run.failure == Some(ConditionTimeout(Input(root), BeVisible)))
      && (IsVisible(e) && !e.enabled ==> run.failure == Some(ConditionTimeout(Input(root), BeEnabled)))
      && (IsVisible(e) && e.enabled && e.readonly ==> run.failure == Some(ConditionTimeout(Input(root), NotBeReadonly)))
      && (run.failure.Some? ==> run.page == p && run.actions == [])
  {
    var xs := [BeVisible, BeEnabled, NotBeReadonly];
    assert xs[0] == BeVisible && xs[1] == BeEnabled && xs[2] == NotBeReadonly;
  }

  /** `setDateValue` fails on a readonly input and then changes nothing. */
  lemma SetDateValueRefusesReadonly(p: Page, root: Locator, value: string)
    requires Find(p, Input(root)).present && Find(p, Input(root)).readonly
    ensures SetDateValueRun(p, root, value).failure.Some?
    ensures SetDateValueRun(p, root, value).page == p && SetDateValueRun(p, root, value).actions == []
  {
    var xs := [BeVisible, BeEnabled, NotBeReadonly];
    assert xs[2] == NotBeReadonly;
  }
}
