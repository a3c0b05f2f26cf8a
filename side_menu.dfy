/** SideMenuImpl: the collapsible side menu. Its collapsed state is the
    "collapsed" class on the menu container; the collapse button flips it.
    `openItem` walks a path of item ids, clicking each item header that is not
    open yet. */
module SideMenuImpl {
  import opened Support
  import opened Selectors
  import opened Page
  import opened Conditions
  import opened ConditionCases
  import opened Components

  const ContainerClassName := "jmix-sidemenu-container"
  const ItemHeaderOpen := "jmix-sidemenu-item-header-open"
  const CollapsedClassName := "collapsed"
  const MenuCollapseButton := ByJTestId("collapseMenuButton")

  function Container(root: Locator): Locator
  {
    ByChain([root, ByTargetClassName(ContainerClassName)])
  }

  /** `isCollapsed()`: a missing container is not collapsed; an existing one
      must become visible and then is collapsed iff it has the class. */
  function IsCollapsed(p: Page, root: Locator): (r: Result<bool, Failure>)
    ensures !Find(p, Container(root)).present ==> r == Ok(false)
    ensures r == Ok(true) <==> IsVisible(Find(p, Container(root))) && CollapsedClassName in Find(p, Container(root)).classes
    ensures r.Err? <==> Find(p, Container(root)).present && !Find(p, Container(root)).visible
    ensures r.Err? ==> r.error == ConditionTimeout(Container(root), BeVisible)
  {
    var c := Find(p, Container(root));
    if !c.present then Ok(false)
    else if !c.visible then Err(ConditionTimeout(Container(root), BeVisible))
    else Ok(HasClass(c, CollapsedClassName))
  }

  /** `isExpanded()` is `!isCollapsed()`. */
  function IsExpanded(p: Page, root: Locator): (r: Result<bool, Failure>)
    ensures r.Ok? <==> IsCollapsed(p, root).Ok?
    ensures r.Ok? ==> r.value == !IsCollapsed(p, root).value
    ensures r.Err? ==> r.error == IsCollapsed(p, root).error
  {
    match IsCollapsed(p, root)
    case Ok(collapsed) => Ok(!collapsed)
    case Err(f) => Err(f)
  }

  function OwnCases(root: Locator, p: Page, c: Condition): Match
  {
    if c == Expanded then Some(IsExpanded(p, root))
    else if c == Collapsed then Some(IsCollapsed(p, root))
    else None
  }

  function Apply(root: Locator, p: Page, c: Condition): (r: Result<bool, Failure>)
    ensures r == Err(Unsupported) <==> c !in {Enabled, Disabled, Expanded, Collapsed}
    ensures c == Enabled ==> r == Ok(!HasMarker(Find(p, root), DisabledMarker))
    ensures c == Disabled ==> r == Ok(HasMarker(Find(p, root), DisabledMarker))
    ensures c == Expanded ==> r == IsExpanded(p, root)
    ensures c == Collapsed ==> r == IsCollapsed(p, root)
  {
    GetMatch(FirstMatch(ComponentCases(c, Find(p, root)), OwnCases(root, p, c)))
  }

  /** EXPANDED and COLLAPSED never both hold, and one of them holds whenever
      the container can be read. */
  lemma ExpandedExactlyWhenNotCollapsed(root: Locator, p: Page)
    ensures Apply(root, p, Expanded).Ok? <==> Apply(root, p, Collapsed).Ok?
    ensures Apply(root, p, Expanded).Ok? ==> Apply(root, p, Expanded).value != Apply(root, p, Collapsed).value
  {
  }

  /** The container with its "collapsed" class flipped, if it exists. */
  function FlipCollapsed(p: Page, root: Locator): Page
  {
    var c := Find(p, Container(root));
    if !c.present then p
    else if CollapsedClassName in c.classes then Put(p, Container(root), c.(classes := c.classes - {CollapsedClassName}))
    else Put(p, Container(root), c.(classes := c.classes + {CollapsedClassName}))
  }

  /** `toggleCollapsed()`: only an existing collapse button is clicked, once it is visible. */
  function ToggleCollapsedRun(p: Page, root: Locator): Run
  {
    var button := Find(p, MenuCollapseButton);
    if !button.present then Unchanged(p)
    else if !button.visible then Failed(p, ConditionTimeout(MenuCollapseButton, BeVisible))
    else Run(FlipCollapsed(p, root), [Click(MenuCollapseButton)], None)
  }

  function ExpandRun(p: Page, root: Locator): Run
  {
    match IsExpanded(p, root)
    case Err(f) => Failed(p, f)
    case Ok(expanded) => if !expanded then ToggleCollapsedRun(p, root) else Unchanged(p)
  }

  function CollapseRun(p: Page, root: Locator): Run
  {
    match IsCollapsed(p, root)
    case Err(f) => Failed(p, f)
    case Ok(collapsed) => if !collapsed then ToggleCollapsedRun(p, root) else Unchanged(p)
  }

  method ToggleCollapsed(b: Browser, root: Locator) returns (failure: Option<Failure>)
    modifies b
    ensures var run := ToggleCollapsedRun(old(b.page), root);
      b.page == run.page && b.log == old(b.log) + run.actions && failure == run.failure
  {
    var button := Find(b.page, MenuCollapseButton);
    if !button.present {
      return None;
    }
    if !button.visible {
      return Some(ConditionTimeout(MenuCollapseButton, BeVisible));
    }
    b.log := b.log + [Click(MenuCollapseButton)];
    b.page := FlipCollapsed(b.page, root);
    return None;
  }

  method Expand(b: Browser, root: Locator) returns (r: Result<Component, Failure>)
    modifies b
    ensures var run := ExpandRun(old(b.page), root);
      b.page == run.page && b.log == old(b.log) + run.actions && r == Returned(run, SideMenu(root))
  {
    var expanded := IsExpanded(b.page, root);
    if expanded.Err? {
      return Err(expanded.error);
    }
    if !expanded.value {
      var failure := ToggleCollapsed(b, root);
      if failure.Some? {
        return Err(failure.value);
      }
    }
    r := Ok(SideMenu(root));
  }

  method Collapse(b: Browser, root: Locator) returns (r: Result<Component, Failure>)
    modifies b
    ensures var run := CollapseRun(old(b.page), root);
      b.page == run.page && b.log == old(b.log) + run.actions && r == Returned(run, SideMenu(root))
  {
    var collapsed := IsCollapsed(b.page, root);
    if collapsed.Err? {
      return Err(collapsed.error);
    }
    if !collapsed.value {
      var failure := ToggleCollapsed(b, root);
      if failure.Some? {
        return Err(failure.value);
      }
    }
    r := Ok(SideMenu(root));
  }

  /** Without a collapse button, toggling does nothing at all. */
  lemma ToggleWithoutButtonIsNoop(p: Page, root: Locator)
    requires !Find(p, MenuCollapseButton).present
    ensures ToggleCollapsedRun(p, root) == Unchanged(p)
    ensures ExpandRun(p, root).page == p && CollapseRun(p, root).page == p
  {
  }

  /** A successful `expand()` leaves the menu expanded whenever the collapse button exists. */
  lemma ExpandEndsExpanded(p: Page, root: Locator)
    requires Find(p, MenuCollapseButton).present
    ensures var run := ExpandRun(p, root);
      run.failure.None? ==> IsExpanded(run.page, root) == Ok(true)
  {
  }

  /** A successful `collapse()` leaves an existing container collapsed whenever
      the collapse button exists. */
  lemma CollapseEndsCollapsed(p: Page, root: Locator)
    requires Find(p, MenuCollapseButton).present && Find(p, Container(root)).present
    ensures var run := CollapseRun(p, root);
      run.failure.None? ==> IsCollapsed(run.page, root) == Ok(true)
  {
  }

  /** `expand()` twice is `expand()` once: the second call sends nothing. */
  lemma ExpandIdempotent(p: Page, root: Locator)
    ensures var run := ExpandRun(p, root);
      run.failure.None? ==> ExpandRun(run.page, root) == Unchanged(run.page)
  {
  }

  /** `collapse()` twice leaves the page as `collapse()` once. Only when the
      container is missing does the second call click again, because a missing
      container never reads as collapsed. */
  lemma CollapseIdempotent(p: Page, root: Locator)
    ensures var run := CollapseRun(p, root);
      run.failure.None? ==> CollapseRun(run.page, root).page == run.page
    ensures var run := CollapseRun(p, root);
      run.failure.None? && Find(p, Container(root)).present ==> CollapseRun(run.page, root) == Unchanged(run.page)
  {
  }

  /** The menu item `//div[...]` whose j-test-id is the quoted segment;
      `escape` is Selenium's Quotes.escape. */
  function ItemLocator(segment: string, escape: string -> string): Locator
  {
    ByXpath("//div[contains(@class, 'jmix-sidemenu-item') and @j-test-id=" + escape(segment) + "]")
  }

  predicate IsOpen(e: Element)
  {
    HasClass(e, ItemHeaderOpen)
  }

  /** One segment of `openItem`: wait for the item to be visible and enabled,
      then click it unless its header is already open; a click opens it. */
  function OpenStepRun(p: Page, loc: Locator): Run
  {
    match FirstUnmet(p, loc, [BeVisible, BeEnabled])
    case Some(f) => Failed(p, f)
    case None =>
      var item := Find(p, loc);
      if IsOpen(item) then Unchanged(p)
      else Run(Put(p, loc, item.(classes := item.classes + {ItemHeaderOpen})), [Click(loc)], None)
  }

  /** `openItem(path)`: the segments in order; the first failure ends the
      walk, and the clicks made before it stay made. */
  function OpenItemRun(p: Page, path: seq<string>, escape: string -> string): Run
    decreases |path|
  {
    if |path| == 0 then Unchanged(p)
    else
      var step := OpenStepRun(p, ItemLocator(path[0], escape));
      if step.failure.Some? then step
      else
        var rest := OpenItemRun(step.page, path[1..], escape);
        Run(rest.page, step.actions + rest.actions, rest.failure)
  }

  /** `total` is what the walk does when `done` has already been sent and the
      walk goes on from page `p` with the segments `rest`. */
  ghost predicate Resumes(total: Run, done: seq<Action>, p: Page, rest: seq<string>, escape: string -> string)
  {
    var r := OpenItemRun(p, rest, escape);
    total == Run(r.page, done + r.actions, r.failure)
  }

  /** One turn of the walk: either segment `i` fails and the walk ends there,
      or the walk resumes after it with the step's actions done. */
  lemma OpenItemAdvance(total: Run, done: seq<Action>, p: Page, path: seq<string>, i: nat, escape: string -> string)
    requires i < |path| && Resumes(total, done, p, path[i..], escape)
    ensures var step := OpenStepRun(p, ItemLocator(path[i], escape));
      (step.failure.Some? ==> total == Run(p, done, step.failure))
      && (step.failure.None? ==> Resumes(total, done + step.actions, step.page, path[i + 1..], escape))
  {
    assert path[i..][0] == path[i] && path[i..][1..] == path[i + 1..];
    var step := OpenStepRun(p, ItemLocator(path[i], escape));
    if step.failure.None? {
      var r := OpenItemRun(step.page, path[i + 1..], escape);
      assert done + (step.actions + r.actions) == (done + step.actions) + r.actions;
    }
  }

  lemma LogSuffix(start: seq<Action>, log: seq<Action>, more: seq<Action>)
    requires |start| <= |log| && log[..|start|] == start
    ensures |start| <= |log + more| && (log + more)[..|start|] == start
    ensures (log + more)[|start|..] == log[|start|..] + more
  {
    assert (log + more)[..|start|] == log[..|start|];
  }

  method OpenItem(b: Browser, path: seq<string>, escape: string -> string) returns (failure: Option<Failure>)
    modifies b
    ensures var run := OpenItemRun(old(b.page), path, escape);
      b.page == run.page && b.log == old(b.log) + run.actions && failure == run.failure
  {
    ghost var start := b.log;
    ghost var total := OpenItemRun(b.page, path, escape);
    assert path[0..] == path;
    assert b.log[|start|..] == [];
    var i := 0;
    while i < |path|
      invariant 0 <= i <= |path|
      invariant |start| <= |b.log| && b.log[..|start|] == start
      invariant Resumes(total, b.log[|start|..], b.page, path[i..], escape)
    {
      var loc := ItemLocator(path[i], escape);
      ghost var step := OpenStepRun(b.page, loc);
      OpenItemAdvance(total, b.log[|start|..], b.page, path, i, escape);
      LogSuffix(start, b.log, step.actions);
      var f := FirstUnmet(b.page, loc, [BeVisible, BeEnabled]);
      if f.Some? {
        assert b.log == start + b.log[|start|..];
        return f;
      }
      var item := Find(b.page, loc);
      ghost var done := b.log[|start|..];
      if !IsOpen(item) {
        assert step == Run(Put(b.page, loc, item.(classes := item.classes + {ItemHeaderOpen})), [Click(loc)], None);
        b.log := b.log + [Click(loc)];
        b.page := Put(b.page, loc, item.(classes := item.classes + {ItemHeaderOpen}));
      } else {
        assert step == Unchanged(b.page);
      }
      assert b.page == step.page && b.log[|start|..] == done + step.actions;
      i := i + 1;
    }
    assert b.log == start + b.log[|start|..];
    return None;
  }

  /** `q` differs from `p` at most by item headers that were opened. */
  ghost predicate OnlyOpened(p: Page, q: Page)
  {
    forall loc :: Find(q, loc) == Find(p, loc)
      || Find(q, loc) == Find(p, loc).(classes := Find(p, loc).classes + {ItemHeaderOpen})
  }

  lemma OnlyOpenedTransitive(p: Page, q: Page, s: Page)
    requires OnlyOpened(p, q) && OnlyOpened(q, s)
    ensures OnlyOpened(p, s)
  {
    forall loc
      ensures Find(s, loc) == Find(p, loc)
        || Find(s, loc) == Find(p, loc).(classes := Find(p, loc).classes + {ItemHeaderOpen})
    {
      var e := Find(p, loc);
      assert e.(classes := e.classes + {ItemHeaderOpen}).(classes := e.classes + {ItemHeaderOpen} + {ItemHeaderOpen})
          == e.(classes := e.classes + {ItemHeaderOpen});
    }
  }

  /** `openItem` only ever opens item headers: nothing else on the page changes,
      and an open header stays open. */
  lemma {:induction false} OpenItemOnlyOpens(p: Page, path: seq<string>, escape: string -> string)
    ensures OnlyOpened(p, OpenItemRun(p, path, escape).page)
    decreases |path|
  {
    if |path| > 0 {
      var step := OpenStepRun(p, ItemLocator(path[0], escape));
      assert OnlyOpened(p, step.page);
      if step.failure.None? {
        OpenItemOnlyOpens(step.page, path[1..], escape);
        OnlyOpenedTransitive(p, step.page, OpenItemRun(step.page, path[1..], escape).page);
      }
    }
  }

  /** Every item of `loc`s in `path` is visible, enabled and open on `p`. */
  ghost predicate AllReady(p: Page, path: seq<string>, escape: string -> string)
  {
    forall i | 0 <= i < |path| ::
      IsVisible(Find(p, ItemLocator(path[i], escape))) && Find(p, ItemLocator(path[i], escape)).enabled
      && IsOpen(Find(p, ItemLocator(path[i], escape)))
  }

  lemma OnlyOpenedKeepsReady(p: Page, q: Page, path: seq<string>, escape: string -> string)
    requires OnlyOpened(p, q) && AllReady(p, path, escape)
    ensures AllReady(q, path, escape)
  {
    forall i | 0 <= i < |path|
      ensures IsVisible(Find(q, ItemLocator(path[i], escape))) && Find(q, ItemLocator(path[i], escape)).enabled
        && IsOpen(Find(q, ItemLocator(path[i], escape)))
    {
      var loc := ItemLocator(path[i], escape);
      assert Find(q, loc) == Find(p, loc) || Find(q, loc) == Find(p, loc).(classes := Find(p, loc).classes + {ItemHeaderOpen});
    }
  }

  /** After a successful `openItem(path)`, every item on the path is visible,
      enabled and open. */
  lemma {:induction false} OpenItemOpensEveryItem(p: Page, path: seq<string>, escape: string -> string)
    ensures var run := OpenItemRun(p, path, escape);
      run.failure.None? ==> AllReady(run.page, path, escape)
    decreases |path|
  {
    var run := OpenItemRun(p, path, escape);
    if |path| > 0 && run.failure.None? {
      var loc := ItemLocator(path[0], escape);
      var step := OpenStepRun(p, loc);
      assert FirstUnmet(p, loc, [BeVisible, BeEnabled]).None?;
      assert Meets(Find(p, loc), [BeVisible, BeEnabled][0]) && Meets(Find(p, loc), [BeVisible, BeEnabled][1]);
      assert IsVisible(Find(step.page, loc)) && Find(step.page, loc).enabled && IsOpen(Find(step.page, loc));
      OpenItemOpensEveryItem(step.page, path[1..], escape);
      OpenItemOnlyOpens(step.page, path[1..], escape);
      assert AllReady(step.page, [path[0]], escape);
      OnlyOpenedKeepsReady(step.page, run.page, [path[0]], escape);
      forall i | 0 <= i < |path|
        ensures IsVisible(Find(run.page, ItemLocator(path[i], escape))) && Find(run.page, ItemLocator(path[i], escape)).enabled
          && IsOpen(Find(run.page, ItemLocator(path[i], escape)))
      {
        if i == 0 {
          assert [path[0]][0] == path[i];
        } else {
          assert path[1..][i - 1] == path[i];
        }
      }
    }
  }

  /** On a page where every item of the path is visible, enabled and already
      open, `openItem(path)` clicks nothing and changes nothing. */
  lemma {:induction false} OpenItemLeavesOpenItems(p: Page, path: seq<string>, escape: string -> string)
    requires AllReady(p, path, escape)
    ensures OpenItemRun(p, path, escape) == Unchanged(p)
    decreases |path|
  {
    if |path| > 0 {
      var loc := ItemLocator(path[0], escape);
      assert IsVisible(Find(p, loc)) && Find(p, loc).enabled && IsOpen(Find(p, loc));
      assert forall i | 0 <= i < 2 :: Meets(Find(p, loc), [BeVisible, BeEnabled][i]);
      assert OpenStepRun(p, loc) == Unchanged(p);
      assert AllReady(p, path[1..], escape) by {
        forall i | 0 <= i < |path[1..]|
          ensures IsVisible(Find(p, ItemLocator(path[1..][i], escape)))
        {
          assert path[1..][i] == path[i + 1];
        }
      }
      OpenItemLeavesOpenItems(p, path[1..], escape);
    }
  }

  /** `openItem(path)` twice is `openItem(path)` once. */
  lemma OpenItemIdempotent(p: Page, path: seq<string>, escape: string -> string)
    ensures var run := OpenItemRun(p, path, escape);
      run.failure.None? ==> OpenItemRun(run.page, path, escape) == Unchanged(run.page)
  {
    var run := OpenItemRun(p, path, escape);
    if run.failure.None? {
      OpenItemOpensEveryItem(p, path, escape);
      OpenItemLeavesOpenItems(run.page, path, escape);
    }
  }
}
