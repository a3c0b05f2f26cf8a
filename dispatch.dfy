/** Which `apply` answers a specific condition for each component, and how the
    handler's `is` comes back to it through the SpecificConditionContext. */
module Dispatch {
  import opened Support
  import opened Page
  import opened Conditions
  import opened ConditionCases
  import opened Components
  import AbstractSpecificConditionHandler
  import AbstractInputComponent
  import CheckBoxImpl
  import SideMenuImpl
  import DateFieldImpl
  import TabSheetImpl

  /** The `apply` the component's class declares or inherits. */
  function Apply(comp: Component, p: Page, checks: TextChecks, c: Condition): Result<bool, Failure>
  {
    match comp
    case InputComponent(_) => AbstractInputComponent.Apply(comp, p, checks, c)
    case TextArea(_) => AbstractInputComponent.Apply(comp, p, checks, c)
    case ComboBox(_) => AbstractInputComponent.Apply(comp, p, checks, c)
    case DateField(root) => DateFieldImpl.Apply(root, p, checks, c)
    case CheckBox(root) => CheckBoxImpl.Apply(root, p, checks, c)
    case SideMenu(root) => SideMenuImpl.Apply(root, p, c)
    case Tab(_, _, _) => TabSheetImpl.TabApply(comp, p, checks, c)
  }

  /** The conditions each component's own `apply` table answers. VISIBLE and
      HIDDEN, which the components also document, are not in any table: the
      wrapped element answers them itself. */
  predicate Supports(comp: Component, c: Condition)
  {
    match comp
    case InputComponent(_) => FieldCase(c)
    case TextArea(_) => FieldCase(c)
    case ComboBox(_) => FieldCase(c)
    case DateField(_) => c == Enabled || c == Disabled || c.DateValue?
    case CheckBox(_) =>
      c in {Enabled, Disabled, Checked, Selected, Readonly, Editable} || c.Caption? || c.CaptionContains?
    case SideMenu(_) => c in {Enabled, Disabled, Expanded, Collapsed}
    case Tab(_, _, _) => c in {Enabled, Disabled, Selected} || c.Caption? || c.CaptionContains?
  }

  /** VISIBLE and HIDDEN are Selenide's own conditions; every other condition
      is a specific one, which the element hands back to the handler. */
  predicate IsSpecific(c: Condition)
  {
    !c.Visible? && !c.Hidden?
  }

  /** A condition fails as unsupported exactly when the component's table has no case for it. */
  lemma UnsupportedExactlyOutsideTable(comp: Component, p: Page, checks: TextChecks, c: Condition)
    ensures Apply(comp, p, checks, c) == Err(Unsupported) <==> !Supports(comp, c)
  {
  }

  /** Every component answers ENABLED and DISABLED from its root's disabled
      marker, as opposites. */
  lemma EveryComponentAnswersEnabled(comp: Component, p: Page, checks: TextChecks)
    ensures Apply(comp, p, checks, Enabled) == Ok(!HasMarker(Find(p, comp.root), DisabledMarker))
    ensures Apply(comp, p, checks, Disabled) == Ok(HasMarker(Find(p, comp.root), DisabledMarker))
  {
  }

  /** The wrapped element `$(root)` in a SpecificConditionContext: a specific
      condition is answered by the handler's `apply`, VISIBLE and HIDDEN by the
      element's own visibility. */
  function ContextDelegate(p: Page, checks: TextChecks): AbstractSpecificConditionHandler.Request -> bool
  {
    (r: AbstractSpecificConditionHandler.Request) =>
      r.Query? &&
      if r.condition.Visible? then IsVisible(Find(p, r.context.root))
      else if r.condition.Hidden? then !IsVisible(Find(p, r.context.root))
      else Apply(r.context, p, checks, r.condition) == Ok(true)
  }

  /** `is(c)` on any component is its own `apply(c)` for a specific condition
      and the root's visibility for VISIBLE and HIDDEN; `isChecked()`, which
      is `is(CHECKED)`, reads the check box input's checked state. */
  lemma IsComesBackToApply(comp: Component, p: Page, checks: TextChecks, c: Condition)
    ensures IsSpecific(c) ==>
      AbstractSpecificConditionHandler.Ask(comp, AbstractSpecificConditionHandler.IsQuery, c, ContextDelegate(p, checks))
      == (Apply(comp, p, checks, c) == Ok(true))
    ensures c == Visible ==>
      AbstractSpecificConditionHandler.Ask(comp, AbstractSpecificConditionHandler.IsQuery, c, ContextDelegate(p, checks))
      == IsVisible(Find(p, comp.root))
    ensures c == Hidden ==>
      AbstractSpecificConditionHandler.Ask(comp, AbstractSpecificConditionHandler.IsQuery, c, ContextDelegate(p, checks))
      == !IsVisible(Find(p, comp.root))
    ensures comp.CheckBox? ==>
      AbstractSpecificConditionHandler.Ask(comp, AbstractSpecificConditionHandler.IsQuery, Checked, ContextDelegate(p, checks))
      == CheckBoxImpl.IsChecked(comp.root, p, checks)
  {
  }

  /** No component's table answers VISIBLE or HIDDEN, yet `is` answers them
      for every component: a visible root is VISIBLE and not HIDDEN. */
  lemma VisibilityBypassesApply(comp: Component, p: Page, checks: TextChecks)
    ensures Apply(comp, p, checks, Visible) == Err(Unsupported) && Apply(comp, p, checks, Hidden) == Err(Unsupported)
    ensures AbstractSpecificConditionHandler.Ask(comp, AbstractSpecificConditionHandler.IsQuery, Visible, ContextDelegate(p, checks))
      != AbstractSpecificConditionHandler.Ask(comp, AbstractSpecificConditionHandler.IsQuery, Hidden, ContextDelegate(p, checks))
  {
  }
}
