/** TabSheetImpl and its inner TabImpl. A tab is addressed by an XPath under
    the sheet's root, built from the kind of locator the caller gives; the
    tabs found on the page are addressed by their elements. */
module TabSheetImpl {
  import opened Support
  import opened Selectors
  import opened Page
  import opened Conditions
  import opened ConditionCases
  import opened Components

  const TextPrefix := "Tab.text: "
  const WithTextPrefix := "Tab.withText: "
  const IndexPrefix := "Tab.index: "
  const JTestIdPrefix := "Tab.jTestId: "

  const SelectedTabClass := "v-tabsheet-tabitemcell-selected"
  const CaptionClass := "v-caption"
  const CaptionCloseClass := "v-tabsheet-caption-close"
  const CaptionText := ByXpath(".//div[contains(@class, 'v-captiontext')]")
  const TabsXpath := "./div[(contains(@class, 'v-tabsheet-tabcontainer'))]//td[contains(@class, 'v-tabsheet-tabitemcell')]"

  // XPath is assembled from these pieces so that its brackets can be reasoned about.

  function Call(name: string, args: string): string
  {
    name + "(" + args + ")"
  }

  function Predicate(step: string, test: string): string
  {
    step + "[" + test + "]"
  }

  function Group(e: string): string
  {
    "(" + e + ")"
  }

  const CellStep := ".//td"
  const CellClassArgs := "@class, 'v-tabsheet-tabitemcell'"
  const CellTest := Call("contains", CellClassArgs)

  /** The cell whose normalised text equals the quoted text; `escape` is Selenium's Quotes.escape. */
  function TextTabXpath(text: string, escape: string -> string): string
  {
    ".//td[contains(@class, 'v-tabsheet-tabitemcell') and .//text()[normalize-space(.) = " + escape(text) + "]]"
  }

  function WithTextTabXpath(text: string, escape: string -> string): string
  {
    ".//td[contains(@class, 'v-tabsheet-tabitemcell') and .//text()[contains(normalize-space(.), " + escape(text) + ")]]"
  }

  function JTestIdTabXpath(id: string, escape: string -> string): string
  {
    ".//td[contains(@class, 'v-tabsheet-tabitemcell') and @j-test-id=" + escape(id) + "]"
  }

  /** The index XPath as TabSheetImpl writes it: the tab-cell predicate's `[`
      is never closed; `)` comes first. */
  function IndexTabXpathAsWritten(index: Int32): string
  {
    "(" + CellStep + "[" + CellTest + ")" + "[" + IntToString(index) + "]"
  }

  /** The index XPath as intended: the index-th of all tab cells. */
  function IndexTabXpath(index: Int32): string
  {
    Predicate(Group(Predicate(CellStep, CellTest)), IntToString(index))
  }

  /** The stack of closers still expected after reading `s` with `open`
      pending, or None at the first closer that does not match. */
  function Nest(s: string, open: seq<char>): Option<seq<char>>
    decreases |s|
  {
    if |s| == 0 then Some(open)
    else if s[0] == '(' then Nest(s[1..], open + [')'])
    else if s[0] == '[' then Nest(s[1..], open + [']'])
    else if s[0] == ')' || s[0] == ']' then
      (if |open| > 0 && open[|open| - 1] == s[0] then Nest(s[1..], open[..|open| - 1]) else None)
    else Nest(s[1..], open)
  }

  /** Every `(` and `[` closed, in order, by its own kind of closer. */
  predicate Balanced(s: string)
  {
    Nest(s, []) == Some([])
  }

  predicate Plain(s: string)
  {
    forall i | 0 <= i < |s| :: s[i] != '(' && s[i] != ')' && s[i] != '[' && s[i] != ']'
  }

  function Then(r: Option<seq<char>>, b: string): Option<seq<char>>
  {
    if r.None? then None else Nest(b, r.value)
  }

  lemma {:induction false} NestAppend(a: string, b: string, open: seq<char>)
    ensures Nest(a + b, open) == Then(Nest(a, open), b)
    decreases |a|
  {
    if |a| == 0 {
      assert a + b == b;
    } else {
      assert (a + b)[0] == a[0];
      assert (a + b)[1..] == a[1..] + b;
      if a[0] == '(' {
        NestAppend(a[1..], b, open + [')']);
      } else if a[0] == '[' {
        NestAppend(a[1..], b, open + [']']);
      } else if a[0] == ')' || a[0] == ']' {
        if |open| > 0 && open[|open| - 1] == a[0] {
          NestAppend(a[1..], b, open[..|open| - 1]);
        }
      } else {
        NestAppend(a[1..], b, open);
      }
    }
  }

  lemma {:induction false} NestPlain(s: string, open: seq<char>)
    requires Plain(s)
    ensures Nest(s, open) == Some(open)
    decreases |s|
  {
    if |s| > 0 {
      NestPlain(s[1..], open);
    }
  }

  /** Whatever is pending before a balanced string is pending after it. */
  lemma {:induction false} NestUnderPending(s: string, pending: seq<char>, open: seq<char>)
    requires Nest(s, open).Some?
    ensures Nest(s, pending + open) == Some(pending + Nest(s, open).value)
    decreases |s|
  {
    if |s| > 0 {
      if s[0] == '(' {
        assert pending + open + [')'] == pending + (open + [')']);
        NestUnderPending(s[1..], pending, open + [')']);
      } else if s[0] == '[' {
        assert pending + open + [']'] == pending + (open + [']']);
        NestUnderPending(s[1..], pending, open + [']']);
      } else if s[0] == ')' || s[0] == ']' {
        assert (pending + open)[..|pending + open| - 1] == pending + open[..|open| - 1];
        NestUnderPending(s[1..], pending, open[..|open| - 1]);
      } else {
        NestUnderPending(s[1..], pending, open);
      }
    }
  }

  lemma BalancedAfter(s: string, pending: seq<char>)
    requires Balanced(s)
    ensures Nest(s, pending) == Some(pending)
  {
    NestUnderPending(s, pending, []);
    assert pending + [] == pending;
  }

  lemma BalancedWrap(before: string, inner: string, after: string, closer: char, open: seq<char>)
    requires Nest(before, open) == Some(open + [closer]) && Balanced(inner)
    requires Nest(after, open + [closer]) == Some(open)
    ensures Nest(before + inner + after, open) == Some(open)
  {
    NestAppend(before, inner, open);
    BalancedAfter(inner, open + [closer]);
    NestAppend(before + inner, after, open);
  }

  lemma BalancedCall(name: string, args: string)
    requires Plain(name) && Balanced(args)
    ensures Balanced(Call(name, args))
  {
    NestAppend(name, "(", []);
    NestPlain(name, []);
    BalancedWrap(name + "(", args, ")", ')', []);
  }

  lemma BalancedPredicate(step: string, test: string)
    requires Balanced(step) && Balanced(test)
    ensures Balanced(Predicate(step, test))
  {
    NestAppend(step, "[", []);
    BalancedWrap(step + "[", test, "]", ']', []);
  }

  lemma BalancedGroup(e: string)
    requires Balanced(e)
    ensures Balanced(Group(e))
  {
    BalancedWrap("(", e, ")", ')', []);
  }

  lemma PlainIntToString(n: int)
    ensures Plain(IntToString(n))
  {
    var d := NatToString(if n < 0 then -n else n);
    assert forall i | 0 <= i < |d| :: IsDigit(d[i]);
    if n < 0 {
      assert IntToString(n) == "-" + d;
      forall i | 0 <= i < |"-" + d|
        ensures ("-" + d)[i] != '(' && ("-" + d)[i] != ')' && ("-" + d)[i] != '[' && ("-" + d)[i] != ']'
      {
        if i > 0 {
          assert ("-" + d)[i] == d[i - 1];
        }
      }
    }
  }

  lemma NestOpener(c: char, open: seq<char>)
    requires c == '(' || c == '['
    ensures Nest([c], open) == Some(open + [if c == '(' then ')' else ']'])
  {
    assert [c][1..] == [];
  }

  lemma NestCloser(c: char, open: seq<char>)
    requires c == ')' || c == ']'
    ensures |open| > 0 && open[|open| - 1] == c ==> Nest([c], open) == Some(open[..|open| - 1])
    ensures !(|open| > 0 && open[|open| - 1] == c) ==> Nest([c], open) == None
  {
    assert [c][1..] == [];
  }

  lemma NoneStaysNone(a: string, b: string, open: seq<char>)
    requires Nest(a, open) == None
    ensures Nest(a + b, open) == None
  {
    NestAppend(a, b, open);
  }

  lemma BalancedCallOfPlain(name: string, args: string)
    requires Plain(name) && Plain(args)
    ensures Balanced(Call(name, args))
  {
    NestPlain(args, []);
    NestAppend(name, "(", []);
    NestPlain(name, []);
    NestOpener('(', []);
    assert "(" == ['('];
    NestCloser(')', [')']);
    assert ")" == [')'];
    BalancedWrap(name + "(", args, ")", ')', []);
  }

  lemma CellTestBalanced()
    ensures Balanced(CellTest)
  {
    assert Plain(CellClassArgs);
    assert Plain("contains");
    BalancedCallOfPlain("contains", CellClassArgs);
  }

  /** The corrected index XPath is well bracketed for every index. */
  lemma IndexTabXpathBalanced(index: Int32)
    ensures Balanced(IndexTabXpath(index))
  {
    CellTestBalanced();
    assert Plain(CellStep);
    NestPlain(CellStep, []);
    BalancedPredicate(CellStep, CellTest);
    BalancedGroup(Predicate(CellStep, CellTest));
    PlainIntToString(index);
    NestPlain(IntToString(index), []);
    BalancedPredicate(Group(Predicate(CellStep, CellTest)), IntToString(index));
  }

  /** A `)` that meets an open `[`: `(step[test)` fails, whatever follows. */
  lemma {:induction false} CrossedBrackets(step: string, test: string)
    requires Plain(step) && Balanced(test)
    ensures Nest("(" + step + "[" + test + ")", []) == None
  {
    var a1 := "(";
    var a2 := a1 + step;
    var a3 := a2 + "[";
    var a4 := a3 + test;
    assert a1 == ['('];
    NestOpener('(', []);
    assert [] + [')'] == [')'];
    assert Nest(a1, []) == Some([')']);
    NestAppend(a1, step, []);
    NestPlain(step, [')']);
    assert Nest(a2, []) == Some([')']);
    NestAppend(a2, "[", []);
    assert "[" == ['['];
    NestOpener('[', [')']);
    assert [')'] + [']'] == [')', ']'];
    assert Nest(a3, []) == Some([')', ']']);
    NestAppend(a3, test, []);
    BalancedAfter(test, [')', ']']);
    assert Nest(a4, []) == Some([')', ']']);
    NestAppend(a4, ")", []);
    assert ")" == [')'];
    NestCloser(')', [')', ']']);
  }

  /** The index XPath as written is not well bracketed, for any index: the
      `)` after the class test meets the open `[`. */
  lemma IndexTabXpathAsWrittenUnbalanced(index: Int32)
    ensures Nest(IndexTabXpathAsWritten(index), []) == None
    ensures !Balanced(IndexTabXpathAsWritten(index))
  {
    CellTestBalanced();
    assert Plain(CellStep);
    CrossedBrackets(CellStep, CellTest);
    var broken := "(" + CellStep + "[" + CellTest + ")";
    NoneStaysNone(broken, "[", []);
    NoneStaysNone(broken + "[", IntToString(index), []);
    NoneStaysNone(broken + "[" + IntToString(index), "]", []);
  }

  /** The locator kinds `getTab` accepts; ByRowIndex is a ByIndex. */
  predicate TabLocator(tabBy: Locator)
  {
    tabBy.ByTargetText? || tabBy.WithTargetText? || IsByIndex(tabBy) || tabBy.ByJTestId?
  }

  /** `getTab(tabBy)`: a tab under the sheet's root, found by the XPath its
      locator kind calls for (the index XPath as written), and named for
      logging by that kind and argument. */
  function GetTab(sheet: TabSheet, tabBy: Locator, escape: string -> string): (r: Result<Component, Failure>)
    ensures r.Ok? <==> TabLocator(tabBy)
    ensures r.Err? ==> r.error == Unsupported
    ensures r.Ok? ==> r.value.Tab? && r.value.parent == sheet && r.value.loggingId.Some?
    ensures r.Ok? ==> r.value.root.ByChain? && |r.value.root.bys| == 2 && r.value.root.bys[0] == sheet.root
    ensures tabBy.ByTargetText? ==> r.Ok? && r.value.root.bys[1] == ByXpath(TextTabXpath(tabBy.elementText, escape))
    ensures tabBy.WithTargetText? ==> r.Ok? && r.value.root.bys[1] == ByXpath(WithTextTabXpath(tabBy.elementText, escape))
    ensures IsByIndex(tabBy) ==> r.Ok? && r.value.root.bys[1] == ByXpath(IndexTabXpathAsWritten(GetIndex(tabBy)))
    ensures tabBy.ByJTestId? ==> r.Ok? && r.value.root.bys[1] == ByXpath(JTestIdTabXpath(tabBy.jTestId, escape))
  {
    if tabBy.ByTargetText? then
      Ok(Tab(ByChain([sheet.root, ByXpath(TextTabXpath(tabBy.elementText, escape))]), Some(TextPrefix + tabBy.elementText), sheet))
    else if tabBy.WithTargetText? then
      Ok(Tab(ByChain([sheet.root, ByXpath(WithTextTabXpath(tabBy.elementText, escape))]), Some(WithTextPrefix + tabBy.elementText), sheet))
    else if IsByIndex(tabBy) then
      Ok(Tab(ByChain([sheet.root, ByXpath(IndexTabXpathAsWritten(GetIndex(tabBy)))]), Some(IndexPrefix + IntToString(GetIndex(tabBy))), sheet))
    else if tabBy.ByJTestId? then
      Ok(Tab(ByChain([sheet.root, ByXpath(JTestIdTabXpath(tabBy.jTestId, escape))]), Some(JTestIdPrefix + tabBy.jTestId), sheet))
    else
      Err(Unsupported)
  }

  /** `getTab` with the index XPath corrected; every other kind as written. */
  function GetTabIntended(sheet: TabSheet, tabBy: Locator, escape: string -> string): (r: Result<Component, Failure>)
    ensures !IsByIndex(tabBy) ==> r == GetTab(sheet, tabBy, escape)
    ensures IsByIndex(tabBy) ==> r.Ok? && r.value.Tab?
                                 && r.value.root == ByChain([sheet.root, ByXpath(IndexTabXpath(GetIndex(tabBy)))])
                                 && r.value.loggingId == GetTab(sheet, tabBy, escape).value.loggingId
                                 && r.value.parent == sheet
  {
    if IsByIndex(tabBy) then
      Ok(Tab(ByChain([sheet.root, ByXpath(IndexTabXpath(GetIndex(tabBy)))]), Some(IndexPrefix + IntToString(GetIndex(tabBy))), sheet))
    else
      GetTab(sheet, tabBy, escape)
  }

  /** The tab `getTab(byIndex(i))` builds is addressed by a badly bracketed
      XPath, for every index. */
  lemma GetTabIndexXpathUnbalanced(sheet: TabSheet, tabBy: Locator, escape: string -> string)
    requires IsByIndex(tabBy)
    ensures !Balanced(GetTab(sheet, tabBy, escape).value.root.bys[1].xpath)
  {
    IndexTabXpathAsWrittenUnbalanced(GetIndex(tabBy));
  }

  /** With the correction, the index tab's XPath is well bracketed, for every index. */
  lemma GetTabIntendedIndexXpathBalanced(sheet: TabSheet, tabBy: Locator, escape: string -> string)
    requires IsByIndex(tabBy)
    ensures Balanced(GetTabIntended(sheet, tabBy, escape).value.root.bys[1].xpath)
  {
    IndexTabXpathBalanced(GetIndex(tabBy));
  }

  /** The locator a logging id names; an index comes back as a ByIndex. */
  function ParseTabId(id: string): Option<Locator>
  {
    if HasPrefix(id, TextPrefix) then Some(ByTargetText(id[|TextPrefix|..]))
    else if HasPrefix(id, WithTextPrefix) then Some(WithTargetText(id[|WithTextPrefix|..]))
    else if HasPrefix(id, IndexPrefix) then
      (match ParseIndex(id[|IndexPrefix|..]) case Some(n) => Some(ByIndex(n)) case None => None)
    else if HasPrefix(id, JTestIdPrefix) then Some(ByJTestId(id[|JTestIdPrefix|..]))
    else None
  }

  function Normalized(tabBy: Locator): Locator
  {
    if IsByIndex(tabBy) then ByIndex(GetIndex(tabBy)) else tabBy
  }

  lemma ParseTextId(t: string)
    ensures ParseTabId(TextPrefix + t) == Some(ByTargetText(t))
  {
    assert (TextPrefix + t)[..|TextPrefix|] == TextPrefix;
    assert (TextPrefix + t)[|TextPrefix|..] == t;
  }

  lemma ParseWithTextId(t: string)
    ensures ParseTabId(WithTextPrefix + t) == Some(WithTargetText(t))
  {
    var id := WithTextPrefix + t;
    assert id[4] == 'w' && TextPrefix[4] == 't';
    assert id[..|WithTextPrefix|] == WithTextPrefix;
    assert id[|WithTextPrefix|..] == t;
  }

  lemma ParseIndexId(n: Int32)
    ensures ParseTabId(IndexPrefix + IntToString(n)) == Some(ByIndex(n))
  {
    var id := IndexPrefix + IntToString(n);
    assert id[4] == 'i' && TextPrefix[4] == 't' && WithTextPrefix[4] == 'w';
    assert id[..|IndexPrefix|] == IndexPrefix;
    assert id[|IndexPrefix|..] == IntToString(n);
    ParseIndexOfIntToString(n);
  }

  lemma ParseJTestIdId(t: string)
    ensures ParseTabId(JTestIdPrefix + t) == Some(ByJTestId(t))
  {
    var id := JTestIdPrefix + t;
    assert id[4] == 'j' && TextPrefix[4] == 't' && WithTextPrefix[4] == 'w' && IndexPrefix[4] == 'i';
    assert id[..|JTestIdPrefix|] == JTestIdPrefix;
    assert id[|JTestIdPrefix|..] == t;
  }

  /** A tab's logging id names the locator it was asked for: kind and argument. */
  lemma GetTabIdNamesLocator(sheet: TabSheet, tabBy: Locator, escape: string -> string)
    ensures var r := GetTab(sheet, tabBy, escape);
      r.Ok? ==> ParseTabId(r.value.loggingId.value) == Some(Normalized(tabBy))
  {
    if tabBy.ByTargetText? {
      ParseTextId(tabBy.elementText);
    } else if tabBy.WithTargetText? {
      ParseWithTextId(tabBy.elementText);
    } else if IsByIndex(tabBy) {
      ParseIndexId(GetIndex(tabBy));
    } else if tabBy.ByJTestId? {
      ParseJTestIdId(tabBy.jTestId);
    }
  }

  /** Two accepted locators give the same tab only when they are the same
      locator, up to ByRowIndex standing for ByIndex. */
  lemma GetTabDistinguishesLocators(sheet: TabSheet, a: Locator, b: Locator, escape: string -> string)
    requires TabLocator(a) && TabLocator(b)
    ensures GetTab(sheet, a, escape) == GetTab(sheet, b, escape) ==> Normalized(a) == Normalized(b)
  {
    GetTabIdNamesLocator(sheet, a, escape);
    GetTabIdNamesLocator(sheet, b, escape);
  }

  /** Where the visible tabs are found: under the sheet's root. */
  function TabsLocator(sheet: TabSheet): Locator
  {
    ByChain([sheet.root, ByXpath(TabsXpath)])
  }

  function VisibleTabId(i: nat): Option<string>
  {
    Some(IndexPrefix + IntToString(i))
  }

  /** `getVisibleTabs()`: once the sheet is visible, one tab per tab cell on
      the page, in page order, each addressed by its element and named by its
      0-based position. */
  method GetVisibleTabs(sheet: TabSheet, p: Page) returns (r: Result<seq<Component>, Failure>)
    ensures !IsVisible(Find(p, sheet.root)) ==> r == Err(ConditionTimeout(sheet.root, BeVisible))
    ensures IsVisible(Find(p, sheet.root)) ==> r.Ok? && |r.value| == |FindAll(p, TabsLocator(sheet))|
    ensures r.Ok? ==> forall i | 0 <= i < |r.value| ::
      r.value[i] == Tab(ByTarget(FindAll(p, TabsLocator(sheet))[i]), VisibleTabId(i), sheet)
  {
    if !IsVisible(Find(p, sheet.root)) {
      return Err(ConditionTimeout(sheet.root, BeVisible));
    }
    var elements := FindAll(p, TabsLocator(sheet));
    var tabs: seq<Component> := [];
    var i := 0;
    while i < |elements|
      invariant 0 <= i <= |elements| && |tabs| == i
      invariant forall k | 0 <= k < i :: tabs[k] == Tab(ByTarget(elements[k]), VisibleTabId(k), sheet)
    {
      tabs := tabs + [Tab(ByTarget(elements[i]), VisibleTabId(i), sheet)];
      i := i + 1;
    }
    return Ok(tabs);
  }

  /** The visible tabs' logging ids are pairwise distinct. */
  lemma VisibleTabIdsDistinct(i: nat, j: nat)
    ensures VisibleTabId(i) == VisibleTabId(j) <==> i == j
  {
    if VisibleTabId(i) == VisibleTabId(j) {
      assert (IndexPrefix + IntToString(i))[|IndexPrefix|..] == IntToString(i);
      assert (IndexPrefix + IntToString(j))[|IndexPrefix|..] == IntToString(j);
      IntToStringInjective(i, j);
    }
  }

  /** `TabImpl.apply`: componentApply, then SELECTED on the tab cell's class
      and the two caption conditions on the caption-text div. */
  function OwnTabCases(tab: Component, p: Page, checks: TextChecks, c: Condition): Match
    requires tab.Tab?
  {
    var caption := Find(p, ByChain([tab.root, CaptionText]));
    match c
    case Selected => Answer(HasClass(Find(p, tab.root), SelectedTabClass))
    case Caption(s) => Answer(caption.present && checks.exactText(caption.text, s))
    case CaptionContains(s) => Answer(caption.present && checks.text(caption.text, s))
    case _ => None
  }

  function TabApply(tab: Component, p: Page, checks: TextChecks, c: Condition): (r: Result<bool, Failure>)
    requires tab.Tab?
    ensures r.Err? <==> !(c in {Enabled, Disabled, Selected} || c.Caption? || c.CaptionContains?)
    ensures r.Err? ==> r.error == Unsupported
    ensures c == Enabled ==> r == Ok(!HasMarker(Find(p, tab.root), DisabledMarker))
    ensures c == Selected ==> r == Ok(HasClass(Find(p, tab.root), SelectedTabClass))
    ensures c.Caption? ==> r == Ok(Find(p, ByChain([tab.root, CaptionText])).present
                                   && checks.exactText(Find(p, ByChain([tab.root, CaptionText])).text, c.caption))
    ensures c.CaptionContains? ==> r == Ok(Find(p, ByChain([tab.root, CaptionText])).present
                                   && checks.text(Find(p, ByChain([tab.root, CaptionText])).text, c.captionSubstring))
  {
    GetMatch(FirstMatch(ComponentCases(c, Find(p, tab.root)), OwnTabCases(tab, p, checks, c)))
  }

  /** `select()`: wait until the tab is visible and not selected, then click
      its caption; the tab cell becomes the selected one. */
  function SelectRun(p: Page, tab: Component): Run
    requires tab.Tab?
  {
    match FirstUnmet(p, tab.root, [BeVisible, NotHaveClass(SelectedTabClass)])
    case Some(f) => Failed(p, f)
    case None =>
      var cell := Find(p, tab.root);
      Run(Put(p, tab.root, cell.(classes := cell.classes + {SelectedTabClass})),
          [Click(ByChain([tab.root, ByClassName(CaptionClass)]))], None)
  }

  method Select(b: Browser, tab: Component) returns (failure: Option<Failure>)
    requires tab.Tab?
    modifies b
    ensures var run := SelectRun(old(b.page), tab);
      b.page == run.page && b.log == old(b.log) + run.actions && failure == run.failure
  {
    failure := FirstUnmet(b.page, tab.root, [BeVisible, NotHaveClass(SelectedTabClass)]);
    if failure.Some? {
      return;
    }
    var cell := Find(b.page, tab.root);
    b.log := b.log + [Click(ByChain([tab.root, ByClassName(CaptionClass)]))];
    b.page := Put(b.page, tab.root, cell.(classes := cell.classes + {SelectedTabClass}));
  }

  /** After a successful `select()` the tab is SELECTED; selecting it again
      fails, since an already selected tab is refused. */
  lemma SelectEndsSelected(p: Page, tab: Component, checks: TextChecks)
    requires tab.Tab?
    ensures var run := SelectRun(p, tab);
      run.failure.None? ==>
        TabApply(tab, run.page, checks, Selected) == Ok(true)
        && SelectRun(run.page, tab).failure == Some(ConditionTimeout(tab.root, NotHaveClass(SelectedTabClass)))
  {
    var xs := [BeVisible, NotHaveClass(SelectedTabClass)];
    assert xs[0] == BeVisible && xs[1] == NotHaveClass(SelectedTabClass);
  }

  /** `select()` on a hidden or already selected tab fails and does nothing. */
  lemma SelectGuards(p: Page, tab: Component)
    requires tab.Tab?
    ensures var run := SelectRun(p, tab);
      (run.failure.None? <==> IsVisible(Find(p, tab.root)) && !HasClass(Find(p, tab.root), SelectedTabClass))
      && (run.failure.Some? ==> run.page == p && run.actions == [])
  {
    var xs := [BeVisible, NotHaveClass(SelectedTabClass)];
    assert xs[0] == BeVisible && xs[1] == NotHaveClass(SelectedTabClass);
  }

  /** `close()`: wait for the tab's close button and click it. */
  function CloseRun(p: Page, tab: Component): Run
    requires tab.Tab?
  {
    var button := ByChain([tab.root, ByTargetClassName(CaptionCloseClass)]);
    if IsVisible(Find(p, button)) then Run(p, [Click(button)], None)
    else Failed(p, ConditionTimeout(button, BeVisible))
  }

  method Close(b: Browser, tab: Component) returns (failure: Option<Failure>)
    requires tab.Tab?
    modifies b
    ensures var run := CloseRun(old(b.page), tab);
      b.page == run.page && b.log == old(b.log) + run.actions && failure == run.failure
  {
    var button := ByChain([tab.root, ByTargetClassName(CaptionCloseClass)]);
    if !IsVisible(Find(b.page, button)) {
      return Some(ConditionTimeout(button, BeVisible));
    }
    b.log := b.log + [Click(button)];
    failure := None;
  }

  /** `close()` clicks the close button exactly when it shows, and otherwise
      fails on that wait; the page itself is left as it was. */
  lemma CloseGuards(p: Page, tab: Component)
    requires tab.Tab?
    ensures var run := CloseRun(p, tab);
      var button := ByChain([tab.root, ByTargetClassName(CaptionCloseClass)]);
      (run.failure.None? <==> IsVisible(Find(p, button)))
      && (run.failure.None? ==> run.actions == [Click(button)])
      && (run.failure.Some? ==> run.failure == Some(ConditionTimeout(button, BeVisible)) && run.actions == [])
      && run.page == p
  {
  }

  /** `getParent()` is the sheet and `getBy()` a locator under the sheet's
      root. A tab got by a non-negative index i carries the same logging id as
      the visible tab at list position i, though the two need not be the same
      cell: the XPath position `[i]` counts from 1, the list from 0. */
  lemma TabKnowsItsSheet(sheet: TabSheet, tabBy: Locator, escape: string -> string)
    requires TabLocator(tabBy)
    ensures var r := GetTab(sheet, tabBy, escape);
      r.Ok? && r.value.parent == sheet && r.value.root.bys[0] == sheet.root
      && (IsByIndex(tabBy) && GetIndex(tabBy) >= 0 ==> r.value.loggingId == VisibleTabId(GetIndex(tabBy) as nat))
  {
  }
}
