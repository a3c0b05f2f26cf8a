/** TextAreaImpl: an input component whose input handle is its own root. */
module TextAreaImpl {
  import opened Support
  import opened Selectors
  import opened Page
  import opened Conditions
  import opened Components
  import AbstractInputComponent

  /** `getValue()`: once the text area is visible, its value. */
  function GetValue(p: Page, root: Locator): (r: Result<string, Failure>)
    ensures r.Ok? <==> IsVisible(Find(p, root))
    ensures r.Ok? ==> r.value == Find(p, root).value
    ensures r.Err? ==> r.error == ConditionTimeout(root, BeVisible)
  {
    if IsVisible(Find(p, root)) then Ok(Find(p, root).value)
    else Err(ConditionTimeout(root, BeVisible))
  }

  /** `setValue(value)`: wait until visible, enabled and not readonly, then
      Selenide's setValue, which replaces the value (null clears it). */
  function SetValueRun(p: Page, root: Locator, value: Option<string>): Run
  {
    match FirstUnmet(p, root, [BeVisible, BeEnabled, NotBeReadonly])
    case Some(f) => Failed(p, f)
    case None =>
      var e := Find(p, root);
      Run(Put(p, root, e.(value := NullToEmpty(value))), [ReplaceValue(root, value)], None)
  }

  method SetValue(b: Browser, root: Locator, value: Option<string>) returns (r: Result<Component, Failure>)
    modifies b
    ensures var run := SetValueRun(old(b.page), root, value);
      b.page == run.page && b.log == old(b.log) + run.actions && r == Returned(run, TextArea(root))
  {
    var f := FirstUnmet(b.page, root, [BeVisible, BeEnabled, NotBeReadonly]);
    if f.Some? {
      return Err(f.value);
    }
    var e := Find(b.page, root);
    b.log := b.log + [ReplaceValue(root, value)];
    b.page := Put(b.page, root, e.(value := NullToEmpty(value)));
    r := Ok(TextArea(root));
  }

  /** `setValue` acts only on a visible, enabled, writable text area, and then succeeds. */
  lemma SetValueGuards(p: Page, root: Locator, value: Option<string>)
    ensures var run := SetValueRun(p, root, value);
      var e := Find(p, root);
      (run.failure.None? <==> IsVisible(e) && e.enabled && !e.readonly)
      && (run.failure.Some? ==> run.page == p && run.actions == [])
  {
    var xs := [BeVisible, BeEnabled, NotBeReadonly];
    assert xs[0] == BeVisible && xs[1] == BeEnabled && xs[2] == NotBeReadonly;
  }

  /** `getValue()` after a successful `setValue(v)` gives back v (null as ""),
      and so does the inherited VALUE condition when exactValue is equality. */
  lemma GetValueAfterSetValue(p: Page, root: Locator, value: Option<string>, checks: TextChecks)
    requires forall a: string, b: string :: checks.exactValue(a, b) == (a == b)
    ensures var run := SetValueRun(p, root, value);
      run.failure.None? ==>
        GetValue(run.page, root) == Ok(NullToEmpty(value))
        && AbstractInputComponent.Apply(TextArea(root), run.page, checks, Value(value)) == Ok(true)
  {
    var run := SetValueRun(p, root, value);
    if run.failure.None? {
      assert forall i | 0 <= i < 3 :: Meets(Find(p, root), [BeVisible, BeEnabled, NotBeReadonly][i]);
      assert Meets(Find(p, root), [BeVisible, BeEnabled, NotBeReadonly][0]);
    }
  }
}
