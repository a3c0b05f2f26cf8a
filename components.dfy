/** Component handles. A handle is fixed by the locator it was resolved from
    and never caches a DOM node: every operation re-queries the page. */
module Components {
  import opened Support
  import opened Selectors
  import opened Page

  datatype TabSheet = TabSheet(root: Locator)

  datatype Component =
    | InputComponent(root: Locator)  // an AbstractInputComponent that overrides nothing
    | TextArea(root: Locator)
    | ComboBox(root: Locator)
    | DateField(root: Locator)
    | CheckBox(root: Locator)
    | SideMenu(root: Locator)
    | Tab(root: Locator, loggingId: Option<string>, parent: TabSheet)

  /** What a widget operation that returns `this` gives back after `run`:
      the component itself, or the exception the run ended with. */
  function Returned(run: Run, self: Component): (r: Result<Component, Failure>)
    ensures r.Ok? <==> run.failure.None?
    ensures r.Ok? ==> r.value == self
    ensures r.Err? ==> r.error == run.failure.value
  {
    if run.failure.None? then Ok(self) else Err(run.failure.value)
  }
}
