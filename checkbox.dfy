/** CheckBoxImpl: a check box whose state lives on the INPUT under its root.
    Its `apply` extends componentApply with its own cases; `setChecked` presses
    SPACE on the input only when the input is not already in the asked state. */
module CheckBoxImpl {
  import opened Support
  import opened Selectors
  import opened Page
  import opened Conditions
  import opened ConditionCases
  import opened Components

  /** `$(byChain(by, INPUT))`: the input that carries the checked state. */
  function CheckBoxInput(root: Locator): Locator
  {
    ByChain([root, INPUT])
  }

  predicate CheckBoxCase(c: Condition)
  {
    c.Caption? || c.CaptionContains? || c in {Checked, Selected, Readonly, Editable}
  }

  /** The cases CheckBoxImpl adds after componentApply. */
  function OwnCases(root: Locator, p: Page, checks: TextChecks, c: Condition): Match
  {
    var input := Find(p, CheckBoxInput(root));
    var self := Find(p, root);
    match c
    case Checked => Answer(input.present && input.checked)
    case Selected => Answer(input.present && input.selected)
    case Caption(caption) => Answer(self.present && checks.exactText(self.text, caption))
    case CaptionContains(s) => Answer(self.present && checks.text(self.text, s))
    case Readonly => Answer(HasMarker(self, ReadonlyMarker))
    case Editable => Answer(!HasMarker(self, ReadonlyMarker))
    case _ => None
  }

  function Apply(root: Locator, p: Page, checks: TextChecks, c: Condition): (r: Result<bool, Failure>)
    ensures r.Err? <==> !(CheckBoxCase(c) || c == Enabled || c == Disabled)
    ensures r.Err? ==> r.error == Unsupported
    ensures c == Enabled ==> r == Ok(!HasMarker(Find(p, root), DisabledMarker))
    ensures c == Disabled ==> r == Ok(HasMarker(Find(p, root), DisabledMarker))
    ensures c == Checked ==> r == Ok(Find(p, CheckBoxInput(root)).present && Find(p, CheckBoxInput(root)).checked)
    ensures c == Selected ==> r == Ok(Find(p, CheckBoxInput(root)).present && Find(p, CheckBoxInput(root)).selected)
    ensures c.Caption? ==> r == Ok(Find(p, root).present && checks.exactText(Find(p, root).text, c.caption))
    ensures c.CaptionContains? ==> r == Ok(Find(p, root).present && checks.text(Find(p, root).text, c.captionSubstring))
    ensures c == Readonly ==> r == Ok(HasMarker(Find(p, root), ReadonlyMarker))
    ensures c == Editable ==> r == Ok(!HasMarker(Find(p, root), ReadonlyMarker))
  {
    GetMatch(FirstMatch(ComponentCases(c, Find(p, root)), OwnCases(root, p, checks, c)))
  }

  /** `isChecked()` is `is(CHECKED)`, which comes back to this `apply`. */
  function IsChecked(root: Locator, p: Page, checks: TextChecks): (r: bool)
    ensures Apply(root, p, checks, Checked) == Ok(r)
  {
    var input := Find(p, CheckBoxInput(root));
    input.present && input.checked
  }

  /** `setChecked(checked)`: wait for the input to be visible and enabled, then
      press SPACE on it when its state differs from the one asked for; SPACE
      flips the input's checked state. */
  function SetCheckedRun(p: Page, root: Locator, checked: bool): Run
  {
    var loc := CheckBoxInput(root);
    match FirstUnmet(p, loc, [BeVisible, BeEnabled])
    case Some(f) => Failed(p, f)
    case None =>
      var input := Find(p, loc);
      if checked != input.checked then
        Run(Put(p, loc, input.(checked := !input.checked)), [SendKeys(loc, [Space])], None)
      else
        Unchanged(p)
  }

  method SetChecked(b: Browser, root: Locator, checked: bool) returns (r: Result<Component, Failure>)
    modifies b
    ensures var run := SetCheckedRun(old(b.page), root, checked);
      b.page == run.page && b.log == old(b.log) + run.actions && r == Returned(run, CheckBox(root))
  {
    var loc := CheckBoxInput(root);
    var f := FirstUnmet(b.page, loc, [BeVisible, BeEnabled]);
    if f.Some? {
      return Err(f.value);
    }
    var input := Find(b.page, loc);
    if checked != input.checked {
      b.log := b.log + [SendKeys(loc, [Space])];
      b.page := Put(b.page, loc, input.(checked := !input.checked));
    }
    r := Ok(CheckBox(root));
  }

  /** Nothing happens unless the input is visible and enabled; then the
      operation fails with the first of the two waits that does not hold. */
  lemma SetCheckedWaitsForInput(p: Page, root: Locator, checked: bool)
    ensures var run := SetCheckedRun(p, root, checked);
      var input := Find(p, CheckBoxInput(root));
      (run.failure.None? <==> IsVisible(input) && input.enabled)
      && (!IsVisible(input) ==> run == Failed(p, ConditionTimeout(CheckBoxInput(root), BeVisible)))
      && (IsVisible(input) && !input.enabled ==> run == Failed(p, ConditionTimeout(CheckBoxInput(root), BeEnabled)))
  {
    var xs := [BeVisible, BeEnabled];
    assert xs[0] == BeVisible && xs[1] == BeEnabled;
  }

  /** After a successful `setChecked(checked)`, `isChecked()` answers `checked`. */
  lemma SetCheckedEndsAsAsked(p: Page, root: Locator, checked: bool, checks: TextChecks)
    ensures var run := SetCheckedRun(p, root, checked);
      run.failure.None? ==> IsChecked(root, run.page, checks) == checked
  {
  }

  /** SPACE is sent exactly when the state differed, and nothing but the input changes. */
  lemma SetCheckedPressesSpaceOnlyOnChange(p: Page, root: Locator, checked: bool)
    ensures var run := SetCheckedRun(p, root, checked);
      run.failure.None? ==>
        (run.actions == [SendKeys(CheckBoxInput(root), [Space])] <==> Find(p, CheckBoxInput(root)).checked != checked)
        && (run.actions == [] <==> Find(p, CheckBoxInput(root)).checked == checked)
        && forall other | other != CheckBoxInput(root) :: Find(run.page, other) == Find(p, other)
  {
  }

  /** Repeating `setChecked(checked)` sends nothing and changes nothing. */
  lemma SetCheckedIdempotent(p: Page, root: Locator, checked: bool)
    ensures var run := SetCheckedRun(p, root, checked);
      run.failure.None? ==> SetCheckedRun(run.page, root, checked) == Unchanged(run.page)
  {
    var run := SetCheckedRun(p, root, checked);
    var loc := CheckBoxInput(root);
    if run.failure.None? {
      assert FirstUnmet(p, loc, [BeVisible, BeEnabled]).None?;
      assert Find(run.page, loc) == Find(p, loc).(checked := checked);
      assert forall i | 0 <= i < 2 :: Meets(Find(run.page, loc), [BeVisible, BeEnabled][i]);
    }
  }
}
