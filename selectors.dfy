/** The locator algebra of Selectors.java: immutable descriptions of how to find
    elements, the j-test-id path compiler, their CSS and diagnostic renderings,
    and what resolving each of them directly does. */
module Selectors {
  import opened Support

  /** A handle to an element already found on the page (a SelenideElement):
      its identity and the description its toString renders. */
  datatype ElementRef = ElementRef(id: nat, description: string)

  /** Every locator kind the core builds or dispatches on. The first twelve are
      the classes declared in Selectors.java; the last four are Selenium's own
      locators that the widgets build around them. */
  datatype Locator =
    | ByTarget(target: ElementRef)
    | ByJTestId(jTestId: string)
    | ByChain(bys: seq<Locator>)
    | ByIndex(index: Int32)
    | ByRowIndex(index: Int32)
    | ByCells(cellValues: seq<string>)
    | ByTargetText(elementText: string)
    | WithTargetText(elementText: string)
    | ByTargetClassName(className: string)
    | BySelected
    | ByVisibleRows
    | ByRowColIndexes(rowIndex: Int32, colIndex: Int32)
    | ByXpath(xpath: string)
    | ByClassName(name: string)
    | ById(elementId: string)
    | ByConstant(name: string)  // a locator constant declared in a file that is not part of this model

  const INPUT := ByConstant("TagNames.INPUT")
  const DIV := ByConstant("TagNames.DIV")
  const LABEL := ByConstant("TagNames.LABEL")
  const DATEPART := ByConstant("DateTimeFieldImpl.DATEPART")

  /** The steps of a chain that compiles a j-test-id path, one per segment, in order. */
  function JTestIds(path: seq<string>): (steps: seq<Locator>)
    ensures |steps| == |path|
    ensures forall i | 0 <= i < |path| :: steps[i] == ByJTestId(path[i])
  {
    if |path| == 0 then [] else [ByJTestId(path[0])] + JTestIds(path[1..])
  }

  /** What byPath returns: a single segment is its own ByJTestId, anything
      else (the empty path included) a chain of one ByJTestId per segment. */
  function PathLocator(path: seq<string>): (r: Locator)
    ensures |path| == 1 ==> r == ByJTestId(path[0])
    ensures |path| != 1 ==> r.ByChain? && |r.bys| == |path|
    ensures |path| != 1 ==> forall i | 0 <= i < |path| :: r.bys[i] == ByJTestId(path[i])
  {
    if |path| == 1 then ByJTestId(path[0]) else ByChain(JTestIds(path))
  }

  /** byPath: fills an array with one ByJTestId per segment and chains it. */
  method ByPath(path: seq<string>) returns (r: Locator)
    ensures r == PathLocator(path)
  {
    if |path| == 1 {
      return ByJTestId(path[0]);
    }
    var bys := new Locator[|path|];
    for i := 0 to |path|
      invariant forall k | 0 <= k < i :: bys[k] == ByJTestId(path[k])
    {
      bys[i] := ByJTestId(path[i]);
    }
    r := ByChain(bys[..]);
  }

  /** ByChain.getLastBy: the final step, or the array index exception of an empty chain. */
  function LastBy(chain: Locator): (r: Result<Locator, LocatorError>)
    requires chain.ByChain?
    ensures r.Ok? <==> |chain.bys| > 0
    ensures r.Ok? ==> r.value == chain.bys[|chain.bys| - 1]
    ensures r.Err? ==> r.error == IndexOutOfBounds
  {
    if |chain.bys| == 0 then Err(IndexOutOfBounds) else Ok(chain.bys[|chain.bys| - 1])
  }

  const CssPrefix := "[j-test-id='"
  const CssSuffix := "']"

  /** The CSS selector a ByJTestId hands to Selenium: `[j-test-id='<id>']`. */
  function CssSelector(jTestId: string): (css: string)
    ensures |css| == |CssPrefix| + |jTestId| + |CssSuffix|
    ensures css[..|CssPrefix|] == CssPrefix
    ensures css[|CssPrefix|..|css| - |CssSuffix|] == jTestId
    ensures css[|css| - |CssSuffix|..] == CssSuffix
  {
    CssPrefix + jTestId + CssSuffix
  }

  /** Reads the identifier back out of such a selector. */
  function JTestIdOfCss(css: string): Option<string>
  {
    if |css| >= |CssPrefix| + |CssSuffix| && css[..|CssPrefix|] == CssPrefix
       && css[|css| - |CssSuffix|..] == CssSuffix
    then Some(css[|CssPrefix|..|css| - |CssSuffix|])
    else None
  }

  lemma CssSelectorRoundTrip(jTestId: string)
    ensures JTestIdOfCss(CssSelector(jTestId)) == Some(jTestId)
  {
  }

  /** Distinct identifiers never share a selector. */
  lemma CssSelectorInjective(a: string, b: string)
    ensures CssSelector(a) == CssSelector(b) <==> a == b
  {
    if CssSelector(a) == CssSelector(b) {
      CssSelectorRoundTrip(a);
      CssSelectorRoundTrip(b);
    }
  }

  /** ByIndex and its subclass ByRowIndex both answer getIndex. */
  predicate IsByIndex(loc: Locator)
  {
    loc.ByIndex? || loc.ByRowIndex?
  }

  function GetIndex(loc: Locator): Int32
    requires IsByIndex(loc)
  {
    loc.index
  }

  /** ByTargetClassName.getExpectedClassName: the field is never assigned. */
  function ExpectedClassName(loc: Locator): (r: Option<string>)
    requires loc.ByTargetClassName?
    ensures r == None
  {
    None
  }

  const TargetPrefix := "By.target: "
  const JTestIdPrefix := "By.jTestId: "
  const IndexPrefix := "By.index: "
  const RowIndexPrefix := "By.rowIndex: "
  const CellsPrefix := "By.cells: "
  const SelectedText := "By.selectedRow"
  const VisibleRowsText := "By.visibleRows"
  const RowColText := "By.colRowIndexes"

  /** The toString the locator class itself declares; None where it inherits
      the toString of a Selenium or Selenide class. */
  function Diagnostic(loc: Locator): Option<string>
  {
    match loc
    case ByTarget(t) => Some(TargetPrefix + t.description)
    case ByJTestId(id) => Some(JTestIdPrefix + id)
    case ByIndex(n) => Some(IndexPrefix + IntToString(n))
    case ByRowIndex(n) => Some(RowIndexPrefix + IntToString(n))
    case ByCells(cells) => Some(CellsPrefix + Join(cells, ','))
    case BySelected => Some(SelectedText)
    case ByVisibleRows => Some(VisibleRowsText)
    case ByRowColIndexes(_, _) => Some(RowColText)
    case _ => None
  }

  predicate HasPrefix(s: string, prefix: string)
  {
    |prefix| <= |s| && s[..|prefix|] == prefix
  }

  function ParseIndex(s: string): Option<Int32>
  {
    match ParseInt(s)
    case Some(n) => if -0x8000_0000 <= n < 0x8000_0000 then Some(n as Int32) else None
    case None => None
  }

  /** Reads a diagnostic back into the locator it describes, where it can. */
  function ParseDiagnostic(s: string): Option<Locator>
  {
    if HasPrefix(s, JTestIdPrefix) then Some(ByJTestId(s[|JTestIdPrefix|..]))
    else if HasPrefix(s, IndexPrefix) then
      (match ParseIndex(s[|IndexPrefix|..]) case Some(n) => Some(ByIndex(n)) case None => None)
    else if HasPrefix(s, RowIndexPrefix) then
      (match ParseIndex(s[|RowIndexPrefix|..]) case Some(n) => Some(ByRowIndex(n)) case None => None)
    else if HasPrefix(s, CellsPrefix) then Some(ByCells(Split(s[|CellsPrefix|..], ',')))
    else if s == SelectedText then Some(BySelected)
    else if s == VisibleRowsText then Some(ByVisibleRows)
    else None
  }

  /** The locators whose diagnostic says everything about them: not ByTarget
      (its element's description), not ByRowColIndexes (a fixed text), and
      ByCells only with at least one cell and no comma inside a cell. */
  predicate Describable(loc: Locator)
  {
    || loc.ByJTestId? || loc.ByIndex? || loc.ByRowIndex? || loc.BySelected? || loc.ByVisibleRows?
    || (loc.ByCells? && |loc.cellValues| >= 1 && forall i | 0 <= i < |loc.cellValues| :: ',' !in loc.cellValues[i])
  }

  lemma ParseIndexOfIntToString(n: Int32)
    ensures ParseIndex(IntToString(n)) == Some(n)
  {
    ParseIntOfIntToString(n);
  }

  /** A describable locator is recovered from its diagnostic. */
  lemma DiagnosticRoundTrip(loc: Locator)
    requires Describable(loc)
    ensures Diagnostic(loc).Some? && ParseDiagnostic(Diagnostic(loc).value) == Some(loc)
  {
    var s := Diagnostic(loc).value;
    match loc
    case ByJTestId(id) =>
      assert HasPrefix(s, JTestIdPrefix);
      assert s[|JTestIdPrefix|..] == id;
    case ByIndex(n) =>
      assert s[3] == 'i' && JTestIdPrefix[3] == 'j';
      assert !HasPrefix(s, JTestIdPrefix);
      assert s[|IndexPrefix|..] == IntToString(n);
      ParseIndexOfIntToString(n);
    case ByRowIndex(n) =>
      assert s[3] == 'r';
      assert !HasPrefix(s, JTestIdPrefix) && !HasPrefix(s, IndexPrefix);
      assert s[|RowIndexPrefix|..] == IntToString(n);
      ParseIndexOfIntToString(n);
    case ByCells(cells) =>
      assert s[3] == 'c';
      assert !HasPrefix(s, JTestIdPrefix) && !HasPrefix(s, IndexPrefix) && !HasPrefix(s, RowIndexPrefix);
      assert s[|CellsPrefix|..] == Join(cells, ',');
      SplitOfJoin(cells, ',');
    case BySelected =>
      assert s[3] == 's';
    case ByVisibleRows =>
      assert s[3] == 'v';
  }

  /** So two describable locators with the same diagnostic are the same locator. */
  lemma DiagnosticInjective(a: Locator, b: Locator)
    requires Describable(a) && Describable(b)
    ensures Diagnostic(a) == Diagnostic(b) <==> a == b
  {
    DiagnosticRoundTrip(a);
    DiagnosticRoundTrip(b);
  }

  /** ByRowIndex(n) answers getIndex exactly as ByIndex(n) does; only the diagnostic tells them apart. */
  lemma RowIndexIsIndex(n: Int32)
    ensures IsByIndex(ByRowIndex(n)) && GetIndex(ByRowIndex(n)) == GetIndex(ByIndex(n)) == n
    ensures Diagnostic(ByRowIndex(n)) != Diagnostic(ByIndex(n))
  {
    DiagnosticInjective(ByRowIndex(n), ByIndex(n));
  }

  /** ByRowColIndexes renders the same text whatever its indices, and no cells
      and a single empty cell render alike. */
  lemma DiagnosticCollisions(r1: Int32, c1: Int32, r2: Int32, c2: Int32)
    ensures Diagnostic(ByRowColIndexes(r1, c1)) == Diagnostic(ByRowColIndexes(r2, c2)) == Some(RowColText)
    ensures Diagnostic(ByCells([])) == Diagnostic(ByCells([""]))
  {
  }

  /** Where a direct search starts: the whole document or inside an element. */
  datatype SearchContext = Document | Within(element: ElementRef)

  datatype LocatorError =
    | StructuralMisuse(message: string)  // the RuntimeException of a structural-only locator
    | IndexOutOfBounds                   // getLastBy on an empty chain

  /** The locators that only a component implementation may interpret. */
  predicate IsStructural(loc: Locator)
  {
    loc.ByIndex? || loc.ByRowIndex? || loc.ByCells? || loc.BySelected? || loc.ByVisibleRows? || loc.ByRowColIndexes?
  }

  /** The message of the exception a structural locator throws when searched
      directly (ByRowIndex inherits ByIndex's). */
  function StructuralMessage(loc: Locator): string
    requires IsStructural(loc)
  {
    match loc
    case ByIndex(_) => "ByIndex must be checked ony in Component implementations"
    case ByRowIndex(_) => "ByIndex must be checked ony in Component implementations"
    case ByCells(_) => "ByCells must be checked ony in Table implementations"
    case BySelected => "BySelected must be checked ony in Component implementations"
    case ByVisibleRows => "ByVisibleRows must be checked ony in Component implementations"
    case ByRowColIndexes(_, _) => "ByRowColIndexes must be checked ony in Component implementations"
  }

  /** findElements. ByTarget and the structural locators are answered here;
      every other kind is Selenium's and is resolved through the `driver` parameter. */
  function FindElements(loc: Locator, context: SearchContext,
                        driver: (SearchContext, Locator) -> seq<ElementRef>): (r: Result<seq<ElementRef>, LocatorError>)
    ensures r.Err? <==> IsStructural(loc)
    ensures r.Err? ==> r.error == StructuralMisuse(StructuralMessage(loc))
    ensures loc.ByTarget? ==> r == Ok([loc.target])
    ensures !IsStructural(loc) && !loc.ByTarget? ==> r == Ok(driver(context, loc))
  {
    if loc.ByTarget? then Ok([loc.target])
    else if IsStructural(loc) then Err(StructuralMisuse(StructuralMessage(loc)))
    else Ok(driver(context, loc))
  }

  /** A ByTarget finds exactly its element, whatever the context and the driver. */
  lemma TargetIgnoresContext(t: ElementRef, c1: SearchContext, c2: SearchContext,
                             d1: (SearchContext, Locator) -> seq<ElementRef>,
                             d2: (SearchContext, Locator) -> seq<ElementRef>)
    ensures FindElements(ByTarget(t), c1, d1) == FindElements(ByTarget(t), c2, d2) == Ok([t])
  {
  }

  /** byPath of no segments is an empty chain, whose last step cannot be taken. */
  lemma EmptyPathHasNoLastStep()
    ensures PathLocator([]) == ByChain([])
    ensures LastBy(PathLocator([])) == Err(IndexOutOfBounds)
  {
  }

  /** A path of two or more segments is the chain of its segments' ByJTestIds,
      and the chain's last step is the last segment's. */
  lemma {:induction false} PathIsChainOfSegments(path: seq<string>)
    requires |path| >= 2
    ensures PathLocator(path) == ByChain(seq(|path|, i requires 0 <= i < |path| => ByJTestId(path[i])))
    ensures LastBy(PathLocator(path)) == Ok(ByJTestId(path[|path| - 1]))
  {
    var steps := seq(|path|, i requires 0 <= i < |path| => ByJTestId(path[i]));
    assert PathLocator(path).bys == steps;
  }
}
