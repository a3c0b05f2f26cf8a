/** The live page as the components see it. Every component re-queries the
    page through `$(locator)` on each access; here that is `Find` on a snapshot.
    The driver actions a component issues are recorded in order. */
module Page {
  import opened Support
  import opened Selectors

  /** The Vaadin marker classes that `VaadinClassNames` names (their literal
      values live in a file that is not part of this model). */
  datatype Marker = DisabledMarker | RequiredMarker | ReadonlyMarker

  /** What one `$(locator)` yields: whether it exists, Selenium's displayed,
      enabled and readonly-attribute state, the Vaadin markers, the other CSS
      classes by literal name, its text and value, and its checked and
      selected state. */
  datatype Element = Element(
    present: bool,
    visible: bool,
    enabled: bool,
    readonly: bool,
    markers: set<Marker>,
    classes: set<string>,
    text: string,
    value: string,
    checked: bool,
    selected: bool)

  const Absent := Element(false, false, false, false, {}, {}, "", "", false, false)

  /** A snapshot of the page: what `$(locator)` and `$$(locator)` find. */
  datatype Page = Page(elements: map<Locator, Element>, collections: map<Locator, seq<ElementRef>>)

  function Find(p: Page, loc: Locator): Element
  {
    if loc in p.elements then p.elements[loc] else Absent
  }

  function FindAll(p: Page, loc: Locator): seq<ElementRef>
  {
    if loc in p.collections then p.collections[loc] else []
  }

  /** The page after the element at `loc` has changed to `e`; nothing else changes. */
  function Put(p: Page, loc: Locator, e: Element): (q: Page)
    ensures Find(q, loc) == e
    ensures forall other | other != loc :: Find(q, other) == Find(p, other)
    ensures q.collections == p.collections
  {
    p.(elements := p.elements[loc := e])
  }

  /** Selenide's `has(cssClass(...))` for a Vaadin marker: a missing element has none. */
  predicate HasMarker(e: Element, m: Marker)
  {
    e.present && m in e.markers
  }

  predicate HasClass(e: Element, name: string)
  {
    e.present && name in e.classes
  }

  predicate IsVisible(e: Element)
  {
    e.present && e.visible
  }

  /** Selenide's text and value conditions, whose matching rules are the
      library's: each is asked for (the element's text or value, the expected string). */
  datatype TextChecks = TextChecks(
    exactText: (string, string) -> bool,
    text: (string, string) -> bool,
    exactValue: (string, string) -> bool,
    value: (string, string) -> bool)

  datatype Key =
    | Space
    | Home
    | SelectAll  // Keys.chord(Keys.CONTROL, "a")
    | Delete
    | Chars(chars: string)

  /** A driver interaction, in the order the component issues it. */
  datatype Action =
    | Click(at: Locator)
    | SendKeys(at: Locator, keys: seq<Key>)
    | ReplaceValue(at: Locator, newValue: Option<string>)  // Selenide setValue
    | SelectOption(popup: Locator, option: Option<string>)

  /** The Selenide conditions the components wait for before acting. */
  datatype Expectation = BeVisible | BeEnabled | NotBeReadonly | NotHaveClass(name: string)

  predicate Meets(e: Element, x: Expectation)
  {
    match x
    case BeVisible => IsVisible(e)
    case BeEnabled => e.present && e.enabled
    case NotBeReadonly => !(e.present && e.readonly)
    case NotHaveClass(name) => !HasClass(e, name)
  }

  datatype Failure =
    | Unsupported                                                    // motif's MatchException
    | LocatorFailure(error: LocatorError)
    | ConditionTimeout(subject: Locator, expectation: Expectation)  // a should* that never held

  /** A `shouldBe(..).shouldNotBe(..)` chain on one element: the first
      expectation that does not hold fails the chain, on a page that does not
      change while Selenide waits. */
  function FirstUnmet(p: Page, loc: Locator, xs: seq<Expectation>): (f: Option<Failure>)
    ensures f.None? <==> forall i | 0 <= i < |xs| :: Meets(Find(p, loc), xs[i])
    ensures f.Some? ==> exists i | 0 <= i < |xs| ::
      f.value == ConditionTimeout(loc, xs[i]) && !Meets(Find(p, loc), xs[i])
      && forall j | 0 <= j < i :: Meets(Find(p, loc), xs[j])
  {
    if |xs| == 0 then None
    else if !Meets(Find(p, loc), xs[0]) then Some(ConditionTimeout(loc, xs[0]))
    else FirstUnmet(p, loc, xs[1..])
  }

  /** What a component operation did: the page afterwards, the actions it
      issued, and the exception it ended with, if any (the actions issued
      before an exception stay done). */
  datatype Run = Run(page: Page, actions: seq<Action>, failure: Option<Failure>)

  function Unchanged(p: Page): Run
  {
    Run(p, [], None)
  }

  function Failed(p: Page, f: Failure): Run
  {
    Run(p, [], Some(f))
  }

  /** The browser session: the page it shows and the actions sent to it. */
  class Browser {
    var page: Page
    var log: seq<Action>

    constructor (initial: Page)
      ensures page == initial && log == []
    {
      page := initial;
      log := [];
    }
  }
}
