# jmix-masquerade core, modelled in Dafny

jmix-masquerade is a page-object layer for UI tests of Jmix applications. It is
written in Java over Selenide and Selenium. This project models its core
as Dafny code and proves properties about the model. The core has three parts:

- **The locator algebra of `Selectors.java`.** This covers:
  - the locator classes;
  - `byPath`, which compiles a path of `j-test-id` segments into one locator;
  - the CSS selector of `ByJTestId`;
  - the diagnostic `toString` of each locator;
  - what resolving each locator directly does. The structural-only locators
    always throw.
- **Condition dispatch.** Each component's `apply(SpecificCondition)` is a
  motif match table. The table starts with the shared cases of
  `ConditionCases` (`componentApply`, `fieldApply`), and `getMatch` closes
  it: a condition outside the table throws a `MatchException`. The
  `is`/`has`/`should*` forwarding of `AbstractSpecificConditionHandler` is
  modelled as well.
- **The widget operations** of:
  - `CheckBoxImpl`, `SideMenuImpl`, `DateFieldImpl`, `TextAreaImpl` and
    `ComboBoxImpl`;
  - `TabSheetImpl` and its inner `TabImpl`.

The page is a snapshot value, `Page.Page`. It maps each locator to the element
that `$(locator)` finds, with these attributes:

- presence and visibility;
- enabled state and the readonly attribute;
- the Vaadin marker classes and the other CSS classes;
- text, value, and the checked and selected states.

It also maps a locator to the elements that `$$(locator)` finds. Selenide's
text and value conditions (`exactText`, `text`, `exactValue`, `value`) are
library code, so each is a function-valued parameter (`Page.TextChecks`).
Selenium's `Quotes.escape` is an `escape` parameter for the same reason.

A `should*` wait is modelled on a page that does not change while Selenide
waits. When the expected state does not hold, the wait fails with
`ConditionTimeout(subject, expectation)`. This is an error result, not a
precondition, so the model keeps the error path of every operation.

Each widget operation comes in two forms:

- a **specification function** `…Run(page, …)`. It returns the page
  afterwards, the driver actions issued in order, and the failure it ended
  with, if any.
- an **imperative method** that takes a `Page.Browser`, a class whose `page`
  and `log` fields the method updates. The method is proved equal to its specification
  function. The lemmas then state the source's promises about that function,
  for example:
  - "ends checked iff asked";
  - "SPACE only on change";
  - idempotence;
  - "every item on the path ends open";
  - "the input ends holding the filter".

Only the effects below are assumed about the browser. The source does not state them:

- SPACE on a check box input flips its checked state.
- A click on the collapse button flips the class `collapsed` on the menu
  container, if the container exists.
- A click on a menu item that is not open adds `jmix-sidemenu-item-header-open`.
- Select-all followed by DELETE empties an input.
- Typed characters are appended.
- Selenide's `setValue` replaces the value; null clears it.
- HOME followed by text inserts the text at the start.
- A click on a tab's caption adds `v-tabsheet-tabitemcell-selected` to the tab cell.
- A click that closes a popup or a tab only appears in the action log.

### Where the model follows the code rather than the design text

- **Chains are not flattened.** A chain of chains stays nested
  (`ByChain([ByChain([a, b]), c])`), because `ByChain` keeps the array it is
  given. A chain of zero steps is also allowed: `byPath()` with no segments
  builds one. Only `getLastBy` fails on it, with an index exception
  (`Selectors.EmptyPathHasNoLastStep`).
- **A one-segment path is not a chain.** `byPath("a")` is the bare
  `ByJTestId("a")` (`Selectors.PathLocator`).
- **`DateFieldImpl` replaces the inherited table.** It gets `componentApply`
  plus `DateValue`. Value, ValueContains, Required, Readonly and Editable
  throw for a date field, while they hold for other input components
  (`DateFieldImpl.OverrideDropsFieldCases`).
- **The sheet's own `ConditionCases` is assumed to be the one shown.**
  `TabSheetImpl.java` and `DateFieldImpl.java` import `componentApply` from the
  package `sys.matchers`, which is not part of this model. The model assumes
  it behaves like the one in `sys/matcher/ConditionCases.java`.

## Model

| member | source | states |
|---|---|---|
| Selectors.PathLocator | src/main/java/io/jmix/masquerade/Selectors.java:40-54 | a path of one segment gives that segment's ByJTestId itself; any other path, the empty one included, gives a ByChain of the same length whose i-th step is ByJTestId(path[i]) |
| Selectors.ByPath | src/main/java/io/jmix/masquerade/Selectors.java:47-53 | the loop that fills the `By[]` array produces exactly PathLocator(path) |
| Selectors.JTestIds | src/main/java/io/jmix/masquerade/Selectors.java:49-51 | one ByJTestId per segment, same length, same order |
| Selectors.PathIsChainOfSegments | src/main/java/io/jmix/masquerade/Selectors.java:43-53 | a path of two or more segments is the chain of its segments' ByJTestIds, and its last step is the last segment's |
| Selectors.LastBy | src/main/java/io/jmix/masquerade/Selectors.java:211-213 | getLastBy gives the final step, and fails with an index exception exactly when the chain is empty |
| Selectors.EmptyPathHasNoLastStep | src/main/java/io/jmix/masquerade/Selectors.java:211-213 | byPath of no segments is the empty chain, and its getLastBy fails |
| Selectors.CssSelector | src/main/java/io/jmix/masquerade/Selectors.java:183-186 | the selector is `[j-test-id='`, then the id, then `']`, piece by piece |
| Selectors.CssSelectorRoundTrip | src/main/java/io/jmix/masquerade/Selectors.java:183-191 | the id read back out of the CSS selector is the id given |
| Selectors.CssSelectorInjective | src/main/java/io/jmix/masquerade/Selectors.java:184 | two ids share a selector iff they are equal |
| Selectors.ExpectedClassName | src/main/java/io/jmix/masquerade/Selectors.java:293-303 | getExpectedClassName is always null: the field is never assigned |
| Selectors.ParseIndexOfIntToString | src/main/java/io/jmix/masquerade/Selectors.java:233-236 | the decimal rendering of any 32-bit index reads back as that index |
| Selectors.DiagnosticRoundTrip | src/main/java/io/jmix/masquerade/Selectors.java:193-335 | the toString of ByJTestId, ByIndex, ByRowIndex, BySelected, ByVisibleRows and comma-free ByCells reads back as the same locator |
| Selectors.DiagnosticInjective | src/main/java/io/jmix/masquerade/Selectors.java:193-335 | two such locators have the same toString iff they are the same locator |
| Selectors.RowIndexIsIndex | src/main/java/io/jmix/masquerade/Selectors.java:239-248 | ByRowIndex(n) is a ByIndex with getIndex() == n; its toString differs from ByIndex(n)'s |
| Selectors.DiagnosticCollisions | src/main/java/io/jmix/masquerade/Selectors.java:353-356 | ByRowColIndexes renders `By.colRowIndexes` whatever its indices; no cells and one empty cell render alike |
| Selectors.FindElements | src/main/java/io/jmix/masquerade/Selectors.java:169-351 | ByTarget finds exactly its element; every structural-only locator fails with its own message (ByRowIndex with ByIndex's) and never yields elements; all other kinds go to the driver |
| Selectors.TargetIgnoresContext | src/main/java/io/jmix/masquerade/Selectors.java:169-172 | ByTarget's result does not depend on the search context or the driver |
| Support.SplitOfJoin | src/main/java/io/jmix/masquerade/Selectors.java:267-270 | splitting the comma join of ByCells' values at commas gives the values back when none holds a comma |
| Support.ParseIntOfIntToString | src/main/java/io/jmix/masquerade/Selectors.java:235 | Java's decimal rendering of an int reads back as that int |
| Page.FirstUnmet | src/main/java/io/jmix/masquerade/component/impl/CheckBoxImpl.java:77-79 | a shouldBe chain passes iff every expectation holds, and otherwise fails on the first one that does not hold |
| ConditionCases.ComponentCases | src/main/java/io/jmix/masquerade/sys/matcher/ConditionCases.java:36-45 | matches exactly ENABLED and DISABLED; ENABLED iff the root has no disabled marker, DISABLED iff it has one |
| ConditionCases.FieldCases | src/main/java/io/jmix/masquerade/sys/matcher/ConditionCases.java:48-75 | matches exactly Value, ValueContains, ENABLED, DISABLED, REQUIRED, READONLY, EDITABLE, with each answer as in the source (null expectation read as "") |
| ConditionCases.FirstMatch | src/main/java/io/jmix/masquerade/component/impl/CheckBoxImpl.java:53-72 | cases chained after a table are consulted only when the table did not match |
| ConditionCases.GetMatch | src/main/java/io/jmix/masquerade/component/impl/AbstractInputComponent.java:41-42 | getMatch gives the matched answer, and fails as unsupported when nothing matched |
| ConditionCases.EnabledExactlyWhenNotDisabled | src/main/java/io/jmix/masquerade/sys/matcher/ConditionCases.java:39-44 | exactly one of ENABLED and DISABLED holds, and fieldApply answers them as componentApply does |
| ConditionCases.EditableExactlyWhenNotReadonly | src/main/java/io/jmix/masquerade/sys/matcher/ConditionCases.java:69-74 | EDITABLE is the negation of READONLY |
| ConditionCases.HiddenInputHasNoValue | src/main/java/io/jmix/masquerade/sys/matcher/ConditionCases.java:52-59 | both value conditions are false when the input is not visible, whatever it holds |
| ConditionCases.NullExpectationIsEmpty | src/main/java/io/jmix/masquerade/sys/matcher/ConditionCases.java:53-57 | a null expectation is answered as the empty string |
| ConditionCases.EmptyExpectationMatchesOnlyEmpty | src/main/java/io/jmix/masquerade/sys/matcher/ConditionCases.java:52-55 | with exactValue as equality, an empty or null expected value matches only a visible input whose value is empty |
| ConditionCases.CasesReadTheirOwnHandle | src/main/java/io/jmix/masquerade/sys/matcher/ConditionCases.java:52-74 | value cases read only the input handle; marker cases read only the root handle |
| ConditionCases.TablesLeaveOthersOpen | src/main/java/io/jmix/masquerade/sys/matcher/ConditionCases.java:36-75 | a condition outside a table stays unmatched, so later cases decide it, and getMatch alone rejects it |
| AbstractSpecificConditionHandler.DefaultApply | src/main/java/io/jmix/masquerade/component/impl/AbstractSpecificConditionHandler.java:32-35 | the default apply fails as unsupported for every condition |
| AbstractSpecificConditionHandler.Ask | src/main/java/io/jmix/masquerade/component/impl/AbstractSpecificConditionHandler.java:37-49 | is(c) and has(c) return the wrapped element's answer for the same c, asked in this handler's context |
| AbstractSpecificConditionHandler.Await | src/main/java/io/jmix/masquerade/component/impl/AbstractSpecificConditionHandler.java:51-57 | a should* call passes the same conditions in this handler's context, and returns the handler itself iff the element's wait passes |
| AbstractSpecificConditionHandler.AwaitWithin | src/main/java/io/jmix/masquerade/component/impl/AbstractSpecificConditionHandler.java:59-65 | the Duration form passes that condition and that duration unchanged, and returns the handler itself |
| AbstractInputComponent.InputDelegate | src/main/java/io/jmix/masquerade/component/impl/AbstractInputComponent.java:35-37 | the input handle is byChain(root, INPUT), except for TextAreaImpl, where it is the root |
| AbstractInputComponent.Apply | src/main/java/io/jmix/masquerade/component/impl/AbstractInputComponent.java:39-43 | fails as unsupported exactly outside fieldApply's cases; Value reads the component's own input handle |
| AbstractInputComponent.ValueDependsOnlyOnInputHandle | src/main/java/io/jmix/masquerade/component/impl/AbstractInputComponent.java:39-43 | two input components that show the same input element answer every condition alike |
| AbstractInputComponent.TextAreaReadsRootValue | src/main/java/io/jmix/masquerade/component/impl/TextAreaImpl.java:49-52 | a text area's Value reads its root's value; a combo box's reads its INPUT |
| CheckBoxImpl.Apply | src/main/java/io/jmix/masquerade/component/impl/CheckBoxImpl.java:51-73 | CHECKED and SELECTED read the nested INPUT; Caption reads the root's exact text, CaptionContains its text; READONLY is the root's readonly marker and EDITABLE its negation; ENABLED and DISABLED come from componentApply; everything else fails as unsupported |
| CheckBoxImpl.IsChecked | src/main/java/io/jmix/masquerade/component/impl/CheckBoxImpl.java:88-91 | isChecked() is the answer apply gives to CHECKED |
| CheckBoxImpl.SetChecked | src/main/java/io/jmix/masquerade/component/impl/CheckBoxImpl.java:75-86 | the method's new page, its actions and its result (the check box itself, or the failed wait) are those of SetCheckedRun |
| CheckBoxImpl.SetCheckedWaitsForInput | src/main/java/io/jmix/masquerade/component/impl/CheckBoxImpl.java:77-79 | setChecked proceeds iff the input is visible and enabled; otherwise it fails on the first of the two waits that does not hold, and changes nothing |
| CheckBoxImpl.SetCheckedEndsAsAsked | src/main/java/io/jmix/masquerade/component/impl/CheckBoxImpl.java:81-83 | after a successful setChecked(b), isChecked() is b |
| CheckBoxImpl.SetCheckedPressesSpaceOnlyOnChange | src/main/java/io/jmix/masquerade/component/impl/CheckBoxImpl.java:81-83 | SPACE is sent iff the state differed, nothing else is sent, and no other element changes |
| CheckBoxImpl.SetCheckedIdempotent | src/main/java/io/jmix/masquerade/component/impl/CheckBoxImpl.java:76-86 | a second setChecked(b) sends nothing and changes nothing |
| SideMenuImpl.IsCollapsed | src/main/java/io/jmix/masquerade/component/impl/SideMenuImpl.java:96-101 | a missing container is not collapsed; an existing one must be visible (else the wait fails) and is collapsed iff it has the class `collapsed` |
| SideMenuImpl.IsExpanded | src/main/java/io/jmix/masquerade/component/impl/SideMenuImpl.java:103-105 | isExpanded is the negation of isCollapsed, failing when it fails |
| SideMenuImpl.Apply | src/main/java/io/jmix/masquerade/component/impl/SideMenuImpl.java:39-45 | EXPANDED is isExpanded, COLLAPSED is isCollapsed, ENABLED and DISABLED come from componentApply; exactly the other conditions fail as unsupported |
| SideMenuImpl.ExpandedExactlyWhenNotCollapsed | src/main/java/io/jmix/masquerade/component/impl/SideMenuImpl.java:96-105 | EXPANDED and COLLAPSED are answered together and never alike |
| SideMenuImpl.ToggleCollapsed | src/main/java/io/jmix/masquerade/component/impl/SideMenuImpl.java:107-113 | the method matches ToggleCollapsedRun: no button, nothing happens; a button that is not visible fails the wait; otherwise one click flips the state |
| SideMenuImpl.ToggleWithoutButtonIsNoop | src/main/java/io/jmix/masquerade/component/impl/SideMenuImpl.java:107-113 | without a collapse button, toggling changes nothing, and expand and collapse leave the page as it was |
| SideMenuImpl.Expand | src/main/java/io/jmix/masquerade/component/impl/SideMenuImpl.java:78-85 | the method matches ExpandRun: it toggles only when the menu is not expanded, and returns the menu itself |
| SideMenuImpl.Collapse | src/main/java/io/jmix/masquerade/component/impl/SideMenuImpl.java:87-94 | the method matches CollapseRun: it toggles only when the menu is not collapsed, and returns the menu itself |
| SideMenuImpl.ExpandEndsExpanded | src/main/java/io/jmix/masquerade/component/impl/SideMenuImpl.java:78-85 | with a collapse button present, a successful expand() leaves the menu expanded |
| SideMenuImpl.CollapseEndsCollapsed | src/main/java/io/jmix/masquerade/component/impl/SideMenuImpl.java:87-94 | with the button and the container present, a successful collapse() leaves the menu collapsed |
| SideMenuImpl.ExpandIdempotent | src/main/java/io/jmix/masquerade/component/impl/SideMenuImpl.java:78-85 | a second expand() sends nothing and changes nothing |
| SideMenuImpl.CollapseIdempotent | src/main/java/io/jmix/masquerade/component/impl/SideMenuImpl.java:87-101 | a second collapse() leaves the page unchanged; with the container present it also sends nothing |
| SideMenuImpl.OpenItem | src/main/java/io/jmix/masquerade/component/impl/SideMenuImpl.java:59-76 | the loop over the path leaves the page, the action log and the failure that OpenItemRun gives: segments in order, each waited visible and enabled, clicked only if not open; the first failure stops the walk and keeps earlier clicks |
| SideMenuImpl.OpenItemOnlyOpens | src/main/java/io/jmix/masquerade/component/impl/SideMenuImpl.java:72-74 | openItem changes nothing on the page except opening item headers, so open items stay open |
| SideMenuImpl.OpenItemOpensEveryItem | src/main/java/io/jmix/masquerade/component/impl/SideMenuImpl.java:60-76 | after a successful openItem(path), every item on the path is visible, enabled and open |
| SideMenuImpl.OpenItemLeavesOpenItems | src/main/java/io/jmix/masquerade/component/impl/SideMenuImpl.java:72-74 | when every item on the path is already open (and visible, enabled), openItem clicks nothing |
| SideMenuImpl.OpenItemIdempotent | src/main/java/io/jmix/masquerade/component/impl/SideMenuImpl.java:60-76 | a second openItem(path) sends nothing and changes nothing |
| DateFieldImpl.Apply | src/main/java/io/jmix/masquerade/components/impl/DateFieldImpl.java:40-48 | ENABLED and DISABLED from componentApply on the root, DateValue(e) iff the DATEPART element's value exactly matches e; exactly the other conditions fail as unsupported |
| DateFieldImpl.OverrideDropsFieldCases | src/main/java/io/jmix/masquerade/components/impl/DateFieldImpl.java:40-48 | Value, ValueContains, REQUIRED, READONLY and EDITABLE are unsupported for a date field, though the inherited apply answers them |
| DateFieldImpl.OverrideKeepsComponentCases | src/main/java/io/jmix/masquerade/components/impl/DateFieldImpl.java:41-42 | ENABLED and DISABLED are answered as the inherited apply answers them |
| DateFieldImpl.GetDateValue | src/main/java/io/jmix/masquerade/components/impl/DateFieldImpl.java:50-56 | the INPUT's value iff it is visible and enabled; otherwise a failed wait on the INPUT |
| DateFieldImpl.SetDateValue | src/main/java/io/jmix/masquerade/components/impl/DateFieldImpl.java:58-68 | the method matches SetDateValueRun: waits for visible, enabled and not readonly, clicks, sends HOME and the value, returns the field itself |
| DateFieldImpl.SetDateValueThenGet | src/main/java/io/jmix/masquerade/components/impl/DateFieldImpl.java:59-67 | after a successful setDateValue(v), getDateValue() starts with v, and the last keys sent are HOME then v |
| DateFieldImpl.SetDateValueGuards | src/main/java/io/jmix/masquerade/components/impl/DateFieldImpl.java:59-63 | setDateValue proceeds iff the input is visible, enabled and not readonly; otherwise it fails on the first of the three waits that does not hold, with no action and no change |
| DateFieldImpl.SetDateValueRefusesReadonly | src/main/java/io/jmix/masquerade/components/impl/DateFieldImpl.java:60-63 | a readonly input makes setDateValue fail without any change or action |
| TextAreaImpl.GetValue | src/main/java/io/jmix/masquerade/component/impl/TextAreaImpl.java:42-47 | the root's value iff the root is visible; otherwise a failed visibility wait |
| TextAreaImpl.SetValue | src/main/java/io/jmix/masquerade/component/impl/TextAreaImpl.java:32-40 | the method matches SetValueRun and returns the text area itself |
| TextAreaImpl.SetValueGuards | src/main/java/io/jmix/masquerade/component/impl/TextAreaImpl.java:33-38 | setValue proceeds iff the root is visible, enabled and not readonly; otherwise nothing changes and nothing is sent |
| TextAreaImpl.GetValueAfterSetValue | src/main/java/io/jmix/masquerade/component/impl/TextAreaImpl.java:33-47 | after a successful setValue(v), getValue() is v (null as "") and, with exactValue as equality, the inherited Value(v) holds |
| ComboBoxImpl.GetValue | src/main/java/io/jmix/masquerade/component/impl/ComboBoxImpl.java:48-53 | the INPUT's value iff the INPUT is visible; otherwise a failed visibility wait |
| ComboBoxImpl.SetFilter | src/main/java/io/jmix/masquerade/component/impl/ComboBoxImpl.java:69-89 | the method matches SetFilterRun: waits visible, not readonly, enabled (in that order), clicks, clears, types, returns the combo box itself |
| ComboBoxImpl.SetFilterGuards | src/main/java/io/jmix/masquerade/component/impl/ComboBoxImpl.java:70-77 | setFilter proceeds iff the input is visible, not readonly and enabled; otherwise it fails on the first of the three waits that does not hold, with no action and no change |
| ComboBoxImpl.SetFilterLeavesFilter | src/main/java/io/jmix/masquerade/component/impl/ComboBoxImpl.java:78-86 | after a successful setFilter(f), the INPUT holds exactly nullToEmpty(f), and nothing else on the page changed |
| ComboBoxImpl.SetFilterClearsAndTypesOnlyWhenNeeded | src/main/java/io/jmix/masquerade/component/impl/ComboBoxImpl.java:78-86 | select-all and DELETE are sent iff the old value was non-empty; text is typed iff the filter is neither null nor empty; the click comes first |
| ComboBoxImpl.SetFilterIdempotentOnPage | src/main/java/io/jmix/masquerade/component/impl/ComboBoxImpl.java:70-89 | a second setFilter(f) leaves the page as the first one did |
| ComboBoxImpl.GetOptionsPopup | src/main/java/io/jmix/masquerade/component/impl/ComboBoxImpl.java:103-109 | succeeds iff the option list is visible |
| ComboBoxImpl.OpenOptionsPopup | src/main/java/io/jmix/masquerade/component/impl/ComboBoxImpl.java:91-101 | the method matches OpenOptionsPopupRun: waits for the filter-select button, clicks it, then waits for the option list |
| ComboBoxImpl.OpenOptionsPopupGuards | src/main/java/io/jmix/masquerade/component/impl/ComboBoxImpl.java:91-101 | succeeds iff the filter-select button and then the option list are visible; the button is clicked iff it shows; a missing button fails before any click; the page is not changed |
| ComboBoxImpl.SetValue | src/main/java/io/jmix/masquerade/component/impl/ComboBoxImpl.java:55-67 | the method matches SetValueRun: setFilter(value), then the popup (opened for an empty or null value, otherwise the one already shown) selects the value |
| ComboBoxImpl.SetValueOpensPopupOnlyForEmpty | src/main/java/io/jmix/masquerade/component/impl/ComboBoxImpl.java:58-64 | the filter-select button is clicked iff the value is null or empty, and a successful setValue ends by selecting the value |
| ComboBoxImpl.SetValueLeavesValue | src/main/java/io/jmix/masquerade/component/impl/ComboBoxImpl.java:56-67 | after a successful setValue(v), getValue() is nullToEmpty(v); this rests on the popup's selection leaving the page unchanged in the model, and a non-empty v succeeds only when the option list already shows after the filter is typed |
| ComboBoxImpl.CloseOptionsPopup | src/main/java/io/jmix/masquerade/component/impl/ComboBoxImpl.java:111-121 | the method matches CloseOptionsPopupRun and returns the combo box itself |
| ComboBoxImpl.CloseOptionsPopupNeedsPopup | src/main/java/io/jmix/masquerade/component/impl/ComboBoxImpl.java:112-121 | it succeeds iff the option list and the root's DIV are visible, and only then clicks the DIV; the page is unchanged because the model gives the closing click no effect, so the option list still shows afterwards |
| TabSheetImpl.GetTab | src/main/java/io/jmix/masquerade/components/impl/TabSheetImpl.java:53-88 | accepts exactly byText, withText, byIndex (ByRowIndex included) and byJTestId, failing as unsupported otherwise; every tab's parent is the sheet and its locator is byChain(sheet locator, xpath) with the sheet first, the XPath being the one each kind calls for (the index one as written at line 75) |
| TabSheetImpl.GetTabIntended | src/main/java/io/jmix/masquerade/components/impl/TabSheetImpl.java:72-78 | the same tab as getTab for every kind but byIndex, whose XPath is the corrected one, with the same logging id and parent |
| TabSheetImpl.GetTabIndexXpathUnbalanced | src/main/java/io/jmix/masquerade/components/impl/TabSheetImpl.java:72-78 | the tab getTab builds for any byIndex is addressed by a badly bracketed XPath |
| TabSheetImpl.GetTabIntendedIndexXpathBalanced | src/main/java/io/jmix/masquerade/components/impl/TabSheetImpl.java:72-78 | with the correction, that XPath is well bracketed for every index |
| TabSheetImpl.GetTabIdNamesLocator | src/main/java/io/jmix/masquerade/components/impl/TabSheetImpl.java:56-86 | the logging id `Tab.text: `, `Tab.withText: `, `Tab.index: ` or `Tab.jTestId: ` plus the argument reads back as the locator asked for |
| TabSheetImpl.GetTabDistinguishesLocators | src/main/java/io/jmix/masquerade/components/impl/TabSheetImpl.java:56-86 | two accepted locators give the same tab only if they are the same (a ByRowIndex counting as the ByIndex of its index) |
| TabSheetImpl.IndexTabXpathAsWrittenUnbalanced | src/main/java/io/jmix/masquerade/components/impl/TabSheetImpl.java:75 | the index XPath as written is badly bracketed for every index |
| TabSheetImpl.IndexTabXpathBalanced | src/main/java/io/jmix/masquerade/components/impl/TabSheetImpl.java:75 | the corrected index XPath is well bracketed for every index |
| TabSheetImpl.GetVisibleTabs | src/main/java/io/jmix/masquerade/components/impl/TabSheetImpl.java:90-106 | fails unless the sheet is visible; otherwise one tab per found tab cell, in order, addressed by its element, with the 0-based id `Tab.index: i` and the sheet as parent |
| TabSheetImpl.VisibleTabIdsDistinct | src/main/java/io/jmix/masquerade/components/impl/TabSheetImpl.java:101-103 | the visible tabs' logging ids are pairwise distinct |
| TabSheetImpl.TabApply | src/main/java/io/jmix/masquerade/components/impl/TabSheetImpl.java:159-175 | SELECTED iff the tab cell has `v-tabsheet-tabitemcell-selected`; Caption and CaptionContains read the caption-text div; ENABLED and DISABLED from componentApply; exactly the rest fail as unsupported |
| TabSheetImpl.Select | src/main/java/io/jmix/masquerade/components/impl/TabSheetImpl.java:123-129 | the method matches SelectRun: waits for visible and not selected, then clicks the caption |
| TabSheetImpl.SelectGuards | src/main/java/io/jmix/masquerade/components/impl/TabSheetImpl.java:125-126 | select proceeds iff the tab is visible and not selected; otherwise nothing changes and nothing is sent |
| TabSheetImpl.SelectEndsSelected | src/main/java/io/jmix/masquerade/components/impl/TabSheetImpl.java:124-129 | after a successful select(), SELECTED holds, and a second select() fails on the not-selected wait |
| TabSheetImpl.Close | src/main/java/io/jmix/masquerade/components/impl/TabSheetImpl.java:131-136 | waits for the tab's close button to be visible, then clicks it |
| TabSheetImpl.CloseGuards | src/main/java/io/jmix/masquerade/components/impl/TabSheetImpl.java:131-136 | close() clicks the close button iff it is visible, and otherwise fails on that wait with no action; the page is not changed |
| TabSheetImpl.TabKnowsItsSheet | src/main/java/io/jmix/masquerade/components/impl/TabSheetImpl.java:138-157 | getParent() is the sheet and getBy() sits under the sheet's locator; a tab got by index i carries the logging id `Tab.index: i` that getVisibleTabs gives the tab at list position i, although the XPath position `[i]` counts from 1 and the list from 0, so the two can name different cells |
| Dispatch.UnsupportedExactlyOutsideTable | src/main/java/io/jmix/masquerade/component/impl/AbstractSpecificConditionHandler.java:32-35 | for every component kind, apply fails as unsupported exactly for the conditions outside its table |
| Dispatch.EveryComponentAnswersEnabled | src/main/java/io/jmix/masquerade/sys/matcher/ConditionCases.java:36-45 | every component answers ENABLED and DISABLED from its root's disabled marker, as opposites |
| Dispatch.IsComesBackToApply | src/main/java/io/jmix/masquerade/component/impl/AbstractSpecificConditionHandler.java:37-42 | is(c) for a specific condition c is the handler's own apply(c); is(VISIBLE) and is(HIDDEN) are the root element's visibility and its negation; for a check box, is(CHECKED) is isChecked() |
| Dispatch.VisibilityBypassesApply | src/main/java/io/jmix/masquerade/components/TabSheet.java:64-72 | VISIBLE and HIDDEN are in no component's apply table, yet is() answers them for every component, never alike |

## Left out

- **Selenide and Selenium internals.** This covers:
  - how `$()` and `$$()` resolve CSS, XPath, text and class locators;
  - the semantics of `exactText`, `text`, `exactValue` and `value`, including
    the whitespace normalisation of `ByText`/`WithText`;
  - `Quotes.escape`.
  
  They are library code, so they are parameters. Selenium's `ByChained`
  resolution and its `toString` are left to the `driver` parameter of
  `Selectors.FindElements`.
- **Waiting, polling and timeouts.** This covers what is behind `should*`,
  the `Duration` overloads and `Wait().until(elementToBeClickable)` in
  `openItem`. A wait is modelled as one check on a static page. A page that
  changes while Selenide waits is not modelled, and neither is the
  clickability wait. `SpecificConditionContext` is not part of this model.
- **Component wiring.** `Components.wire` and `$j(Class, …)` are
  reflection-based and not part of this model. So are the `openItem`
  overloads that return `Components.wire(...)`.
- **`getDelegate()`.** `AbstractComponent` is not part of this model. A
  component's delegate is taken to be `$(root)`.
- **`OptionsPopupImpl.select`.** It is not part of this model. It appears in
  the action log as `SelectOption`, and its effect on the page is not
  modelled.
- **Popups appearing.** Typing a filter or clicking the filter-select button
  does not make the option list visible in the model. Whether it shows is a
  property of the page snapshot.
- **Tab close.** The effect of closing a tab on the page is not modelled;
  only the click is logged.
- **Null arguments.** These are left out: `byPath(null)` and
  `byJTestId(null)`, which throw a NullPointerException through
  `checkNotNull`; `setDateValue(null)`; and a null `tabBy`.
- **Other repository files.** These are left out:
  - `SelenideElementWrapper`;
  - `EntityComboBoxImpl`, whose `setValue`/`setFilter` repeat `ComboBoxImpl`'s;
  - the interfaces that have no logic.
- **Key chords.** `Keys.chord(CONTROL, "a")` is modelled as one `SelectAll` key.
- **Element identity.** The page is keyed by locator, so two locators that
  name the same DOM element are independent in the model. A change made
  through one is not seen through the other. For example, selecting a tab
  through `getTab(byText(..))` leaves the same cell, reached through
  `getVisibleTabs()` as a `ByTarget`, unselected. `TabSheetImpl.Select` also
  does not clear the selected class on the tab that was selected before, so
  after two selects both tabs can be SELECTED. The "nothing else changed"
  clauses of `ComboBoxImpl.SetFilterLeavesFilter`,
  `CheckBoxImpl.SetCheckedPressesSpaceOnlyOnChange` and
  `SideMenuImpl.OpenItemOnlyOpens` mean that no other locator's entry
  changed, not that no other DOM element changed.
- **Driver errors.** Failures other than the waits, for example a click on an
  element that disappears, are not modelled.
- TabSheetImpl.Select: does not wait for the caption element inside the tab
  before clicking it, because the source's `find(className("v-caption"))`
  wait is left to Selenide.
- AbstractSpecificConditionHandler.Ask: models `is` and `has` as the wrapped
  element's answer. When `apply` itself fails inside `is`, the exception that
  Selenide raises is not modelled: `Dispatch.ContextDelegate` reads such a
  failure as `false`.

## Findings

| source | as written | input that shows it | evidently intended | confidence | as-written member | corrected member |
|---|---|---|---|---|---|---|
| src/main/java/io/jmix/masquerade/components/impl/TabSheetImpl.java:75 | the index XPath `(.//td[contains(@class, 'v-tabsheet-tabitemcell'))[` + index + `]` closes the group's `(` while the tab-cell predicate's `[` is still open | `getTab(byIndex(1))` builds `(.//td[contains(@class, 'v-tabsheet-tabitemcell'))[1]`, which is not a well-formed XPath | `(.//td[contains(@class, 'v-tabsheet-tabitemcell')])[` + index + `]`: the index-th tab cell | high that the expression is malformed (proved for every index); not executed | TabSheetImpl.GetTabIndexXpathUnbalanced | TabSheetImpl.GetTabIntendedIndexXpathBalanced |

`TabSheetImpl.GetTab` builds the expression as written (`IndexTabXpathAsWritten`, proved unbalanced by
`IndexTabXpathAsWrittenUnbalanced`); `TabSheetImpl.GetTabIntended` builds the corrected one (`IndexTabXpath`,
proved balanced by `IndexTabXpathBalanced`).
