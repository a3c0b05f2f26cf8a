/** ComboBoxImpl: an input component with an options popup. The filter is
    cleared and typed into the INPUT; choosing a value goes through the popup. */
module ComboBoxImpl {
  import opened Support
  import opened Selectors
  import opened Page
  import opened Components
  import AbstractInputComponent

  const FilterSelectButtonClass := "v-filterselect-button"
  const OptionList := ById("VAADIN_COMBOBOX_OPTIONLIST")

  function Input(root: Locator): Locator
  {
    AbstractInputComponent.InputDelegate(ComboBox(root))
  }

  function FilterSelectButton(root: Locator): Locator
  {
    ByChain([root, ByClassName(FilterSelectButtonClass)])
  }

  /** `getValue()`: once the input is visible, its value. */
  function GetValue(p: Page, root: Locator): (r: Result<string, Failure>)
    ensures r.Ok? <==> IsVisible(Find(p, Input(root)))
    ensures r.Ok? ==> r.value == Find(p, Input(root)).value
    ensures r.Err? ==> r.error == ConditionTimeout(Input(root), BeVisible)
  {
    if IsVisible(Find(p, Input(root))) then Ok(Find(p, Input(root)).value)
    else Err(ConditionTimeout(Input(root), BeVisible))
  }

  /** `setFilter(filter)`: wait until the input is visible, not readonly and
      enabled, click it; select-all and delete only a non-empty value; type
      the filter only when it is neither null nor empty. */
  function SetFilterRun(p: Page, root: Locator, filter: Option<string>): Run
  {
    var loc := Input(root);
    match FirstUnmet(p, loc, [BeVisible, NotBeReadonly, BeEnabled])
    case Some(f) => Failed(p, f)
    case None =>
      var input := Find(p, loc);
      var cleared :=
        if input.value != "" then
          Run(Put(p, loc, input.(value := "")), [Click(loc), SendKeys(loc, [SelectAll, Delete])], None)
        else
          Run(p, [Click(loc)], None);
      if IsNullOrEmpty(filter) then cleared
      else
        var e := Find(cleared.page, loc);
        Run(Put(cleared.page, loc, e.(value := e.value + filter.value)),
            cleared.actions + [SendKeys(loc, [Chars(filter.value)])], None)
  }

  method SetFilter(b: Browser, root: Locator, filter: Option<string>) returns (r: Result<Component, Failure>)
    modifies b
    ensures var run := SetFilterRun(old(b.page), root, filter);
      b.page == run.page && b.log == old(b.log) + run.actions && r == Returned(run, ComboBox(root))
  {
    var loc := Input(root);
    var f := FirstUnmet(b.page, loc, [BeVisible, NotBeReadonly, BeEnabled]);
    if f.Some? {
      return Err(f.value);
    }
    b.log := b.log + [Click(loc)];
    var input := Find(b.page, loc);
    if input.value != "" {
      b.log := b.log + [SendKeys(loc, [SelectAll, Delete])];
      b.page := Put(b.page, loc, input.(value := ""));
    }
    if !IsNullOrEmpty(filter) {
      var e := Find(b.page, loc);
      b.log := b.log + [SendKeys(loc, [Chars(filter.value)])];
      b.page := Put(b.page, loc, e.(value := e.value + filter.value));
    }
    r := Ok(ComboBox(root));
  }

  /** `setFilter` goes ahead only when the input is visible, not readonly and
      enabled; otherwise it fails on the first of those waits that does not
      hold, before any click. */
  lemma SetFilterGuards(p: Page, root: Locator, filter: Option<string>)
    ensures var run := SetFilterRun(p, root, filter);
      var e := Find(p, Input(root));
      (run.failure.None? <==> IsVisible(e) && !e.readonly && e.enabled)
      && (!IsVisible(e) ==> run.failure == Some(ConditionTimeout(Input(root), BeVisible)))
      && (IsVisible(e) && e.readonly ==> run.failure == Some(ConditionTimeout(Input(root), NotBeReadonly)))
      && (IsVisible(e) && !e.readonly && !e.enabled ==> run.failure == Some(ConditionTimeout(Input(root), BeEnabled)))
      && (run.failure.Some? ==> run.page == p && run.actions == [])
  {
    var xs := [BeVisible, NotBeReadonly, BeEnabled];
    assert xs[0] == BeVisible && xs[1] == NotBeReadonly && xs[2] == BeEnabled;
  }

  /** A successful `setFilter(filter)` leaves exactly `nullToEmpty(filter)`
      in the input, whatever it held before, and touches nothing else. */
  lemma SetFilterLeavesFilter(p: Page, root: Locator, filter: Option<string>)
    ensures var run := SetFilterRun(p, root, filter);
      run.failure.None? ==>
        GetValue(run.page, root) == Ok(NullToEmpty(filter))
        && forall other | other != Input(root) :: Find(run.page, other) == Find(p, other)
  {
    var run := SetFilterRun(p, root, filter);
    var loc := Input(root);
    var xs := [BeVisible, NotBeReadonly, BeEnabled];
    if run.failure.None? {
      assert Meets(Find(p, loc), xs[0]);
      var cleared := if Find(p, loc).value != "" then Put(p, loc, Find(p, loc).(value := "")) else p;
      assert Find(cleared, loc).value == "";
      if !IsNullOrEmpty(filter) {
        assert "" + filter.value == filter.value;
      }
    }
  }

  /** The old value is cleared exactly when it was non-empty, and the filter
      is typed exactly when it is neither null nor empty. */
  lemma SetFilterClearsAndTypesOnlyWhenNeeded(p: Page, root: Locator, filter: Option<string>)
    ensures var run := SetFilterRun(p, root, filter);
      run.failure.None? ==>
        (SendKeys(Input(root), [SelectAll, Delete]) in run.actions <==> Find(p, Input(root)).value != "")
        && ((exists s :: SendKeys(Input(root), [Chars(s)]) in run.actions) <==> !IsNullOrEmpty(filter))
        && run.actions[0] == Click(Input(root))
  {
    var run := SetFilterRun(p, root, filter);
    if run.failure.None? && !IsNullOrEmpty(filter) {
      assert run.actions[|run.actions| - 1] == SendKeys(Input(root), [Chars(filter.value)]);
    }
  }

  /** Repeating `setFilter(filter)` leaves the page as it was after the first call. */
  lemma SetFilterIdempotentOnPage(p: Page, root: Locator, filter: Option<string>)
    ensures var run := SetFilterRun(p, root, filter);
      run.failure.None? ==> SetFilterRun(run.page, root, filter).page == run.page
  {
    var run := SetFilterRun(p, root, filter);
    var loc := Input(root);
    var xs := [BeVisible, NotBeReadonly, BeEnabled];
    if run.failure.None? {
      assert FirstUnmet(p, loc, xs).None?;
      assert forall i | 0 <= i < 3 :: Meets(Find(p, loc), xs[i]);
      assert Find(run.page, loc) == Find(p, loc).(value := NullToEmpty(filter));
      assert forall i | 0 <= i < 3 :: Meets(Find(run.page, loc), xs[i]);
      var again := SetFilterRun(run.page, root, filter);
      if !IsNullOrEmpty(filter) {
        var cleared := Put(run.page, loc, Find(run.page, loc).(value := ""));
        assert again.page == Put(cleared, loc, Find(run.page, loc));
        assert again.page.elements == run.page.elements;
      }
    }
  }

  /** `openOptionsPopup()`: wait for the filter-select button, click it, then
      wait for the option list to show. */
  function OpenOptionsPopupRun(p: Page, root: Locator): Run
  {
    if !IsVisible(Find(p, FilterSelectButton(root))) then
      Failed(p, ConditionTimeout(FilterSelectButton(root), BeVisible))
    else if !IsVisible(Find(p, OptionList)) then
      Run(p, [Click(FilterSelectButton(root))], Some(ConditionTimeout(OptionList, BeVisible)))
    else
      Run(p, [Click(FilterSelectButton(root))], None)
  }

  /** `openOptionsPopup()` succeeds exactly when the filter-select button and
      the option list both show; it clicks the button once it shows, and
      changes nothing on the page. */
  lemma OpenOptionsPopupGuards(p: Page, root: Locator)
    ensures var run := OpenOptionsPopupRun(p, root);
      (run.failure.None? <==> IsVisible(Find(p, FilterSelectButton(root))) && IsVisible(Find(p, OptionList)))
      && (!IsVisible(Find(p, FilterSelectButton(root))) ==>
            run.failure == Some(ConditionTimeout(FilterSelectButton(root), BeVisible)) && run.actions == [])
      && (IsVisible(Find(p, FilterSelectButton(root))) ==> run.actions == [Click(FilterSelectButton(root))])
      && (IsVisible(Find(p, FilterSelectButton(root))) && !IsVisible(Find(p, OptionList)) ==>
            run.failure == Some(ConditionTimeout(OptionList, BeVisible)))
      && run.page == p
  {
  }

  /** `getOptionsPopup()`: the option list, once it shows. */
  function GetOptionsPopup(p: Page): (r: Option<Failure>)
    ensures r.None? <==> IsVisible(Find(p, OptionList))
  {
    if IsVisible(Find(p, OptionList)) then None else Some(ConditionTimeout(OptionList, BeVisible))
  }

  /** `setValue(value)`: set the filter to the value; an empty or null value
      opens the popup with its button, any other uses the popup the filter
      already brought up; then the popup selects the value. */
  function SetValueRun(p: Page, root: Locator, value: Option<string>): Run
  {
    var f := SetFilterRun(p, root, value);
    if f.failure.Some? then f
    else if IsNullOrEmpty(value) then
      var o := OpenOptionsPopupRun(f.page, root);
      if o.failure.Some? then Run(o.page, f.actions + o.actions, o.failure)
      else Run(o.page, f.actions + o.actions + [SelectOption(OptionList, value)], None)
    else if GetOptionsPopup(f.page).Some? then Run(f.page, f.actions, GetOptionsPopup(f.page))
    else Run(f.page, f.actions + [SelectOption(OptionList, value)], None)
  }

  method OpenOptionsPopup(b: Browser, root: Locator) returns (failure: Option<Failure>)
    modifies b
    ensures var run := OpenOptionsPopupRun(old(b.page), root);
      b.page == run.page && b.log == old(b.log) + run.actions && failure == run.failure
  {
    if !IsVisible(Find(b.page, FilterSelectButton(root))) {
      return Some(ConditionTimeout(FilterSelectButton(root), BeVisible));
    }
    b.log := b.log + [Click(FilterSelectButton(root))];
    failure := GetOptionsPopup(b.page);
  }

  method SetValue(b: Browser, root: Locator, value: Option<string>) returns (r: Result<Component, Failure>)
    modifies b
    ensures var run := SetValueRun(old(b.page), root, value);
      b.page == run.page && b.log == old(b.log) + run.actions && r == Returned(run, ComboBox(root))
  {
    r := SetFilter(b, root, value);
    if r.Err? {
      return;
    }
    var failure: Option<Failure>;
    if IsNullOrEmpty(value) {
      failure := OpenOptionsPopup(b, root);
    } else {
      failure := GetOptionsPopup(b.page);
    }
    if failure.Some? {
      return Err(failure.value);
    }
    b.log := b.log + [SelectOption(OptionList, value)];
    r := Ok(ComboBox(root));
  }

  /** The filter-select button is clicked exactly when the value is null or
      empty; a successful `setValue` ends by selecting the value in the popup. */
  lemma SetValueOpensPopupOnlyForEmpty(p: Page, root: Locator, value: Option<string>)
    ensures var run := SetValueRun(p, root, value);
      run.failure.None? ==>
        (Click(FilterSelectButton(root)) in run.actions <==> IsNullOrEmpty(value))
        && run.actions[|run.actions| - 1] == SelectOption(OptionList, value)
  {
    var f := SetFilterRun(p, root, value);
    assert forall a | a in f.actions :: a.Click? ==> a.at == Input(root);
    assert Input(root) != FilterSelectButton(root);
  }

  /** A successful `setValue(v)` leaves `nullToEmpty(v)` in the input. */
  lemma SetValueLeavesValue(p: Page, root: Locator, value: Option<string>)
    ensures var run := SetValueRun(p, root, value);
      run.failure.None? ==> GetValue(run.page, root) == Ok(NullToEmpty(value))
  {
    SetFilterLeavesFilter(p, root, value);
  }

  /** `closeOptionsPopup()`: wait for the option list, then for the root's
      DIV, and click it. */
  function CloseOptionsPopupRun(p: Page, root: Locator): Run
  {
    if !IsVisible(Find(p, OptionList)) then Failed(p, ConditionTimeout(OptionList, BeVisible))
    else if !IsVisible(Find(p, ByChain([root, DIV]))) then Failed(p, ConditionTimeout(ByChain([root, DIV]), BeVisible))
    else Run(p, [Click(ByChain([root, DIV]))], None)
  }

  method CloseOptionsPopup(b: Browser, root: Locator) returns (r: Result<Component, Failure>)
    modifies b
    ensures var run := CloseOptionsPopupRun(old(b.page), root);
      b.page == run.page && b.log == old(b.log) + run.actions && r == Returned(run, ComboBox(root))
  {
    var popup := GetOptionsPopup(b.page);
    if popup.Some? {
      return Err(popup.value);
    }
    if !IsVisible(Find(b.page, ByChain([root, DIV]))) {
      return Err(ConditionTimeout(ByChain([root, DIV]), BeVisible));
    }
    b.log := b.log + [Click(ByChain([root, DIV]))];
    r := Ok(ComboBox(root));
  }

  /** `closeOptionsPopup()` clicks only when the popup shows, and then only the root's DIV. */
  lemma CloseOptionsPopupNeedsPopup(p: Page, root: Locator)
    ensures var run := CloseOptionsPopupRun(p, root);
      (!IsVisible(Find(p, OptionList)) ==> run.failure == Some(ConditionTimeout(OptionList, BeVisible)) && run.actions == [])
      && (run.failure.None? <==> IsVisible(Find(p, OptionList)) && IsVisible(Find(p, ByChain([root, DIV]))))
      && (run.failure.None? ==> run.actions == [Click(ByChain([root, DIV]))])
      && run.page == p
  {
  }
}
