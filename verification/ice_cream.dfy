/**
 The state of the catalog component and its four handlers: typing in the search
 box, clicking a manufacturer button, and clicking one of the two sort buttons.
 Each handler is a pure transition from the old state to the new one.
 */
module IceCream {
  import opened Seqs
  import opened Products
  import opened Search
  import Text

  /** The component's state: the shown list, the search term, the selected
      manufacturers in click order, and the stored direction of each sort button. */
  datatype ViewState = ViewState(
    list: seq<Product>,
    term: string,
    selection: seq<string>,
    kcalDir: Direction,
    sugarDir: Direction)

  /** What the shown list must hold: exactly the catalog entries that match the
      current term and selection, in some order; and no company selected twice. */
  ghost predicate Consistent(catalog: seq<Product>, s: ViewState) {
    && NoDup(s.selection)
    && multiset(s.list) == multiset(Derive(catalog, s.term, s.selection))
  }

  /** The state at mount: the whole catalog, no term, no selection, both
      directions ascending. */
  function Initial(catalog: seq<Product>): (s: ViewState)
    ensures Consistent(catalog, s)
    ensures s.list == Derive(catalog, s.term, s.selection)
    ensures s.kcalDir == Asc && s.sugarDir == Asc
    ensures s.term == "" && s.selection == [] && s.list == catalog
  {
    DeriveNoCriteria(catalog);
    ViewState(catalog, "", [], Asc, Asc)
  }

  /** Typing: stores the term and shows the catalog entries matching it and the
      current selection, in catalog order. */
  function HandleInputChange(catalog: seq<Product>, s: ViewState, term: string): (r: ViewState)
    ensures r.term == term && r.selection == s.selection
    ensures r.kcalDir == s.kcalDir && r.sugarDir == s.sugarDir
    ensures forall p :: p in r.list <==> p in catalog && Matches(term, s.selection, p)
    ensures IsSubsequence(r.list, catalog)
    ensures r.list == Filter(p => Matches(term, s.selection, p), catalog)
  {
    DeriveIsSubsequence(catalog, term, s.selection);
    DeriveIsOneFilter(catalog, term, s.selection);
    s.(term := term, list := Derive(catalog, term, s.selection))
  }

  /** A manufacturer button: toggles the company and shows the catalog entries
      matching the current term and the new selection, in catalog order. */
  function ToggleCompanyFilter(catalog: seq<Product>, s: ViewState, c: string): (r: ViewState)
    ensures c in r.selection <==> c !in s.selection
    ensures forall x :: x != c ==> (x in r.selection <==> x in s.selection)
    ensures r.term == s.term && r.kcalDir == s.kcalDir && r.sugarDir == s.sugarDir
    ensures forall p :: p in r.list <==> p in catalog && Matches(s.term, r.selection, p)
    ensures IsSubsequence(r.list, catalog)
    ensures r.list == Filter(p => Matches(s.term, r.selection, p), catalog)
  {
    var selection := Toggle(s.selection, c);
    DeriveIsSubsequence(catalog, s.term, selection);
    DeriveIsOneFilter(catalog, s.term, selection);
    s.(selection := selection, list := Derive(catalog, s.term, selection))
  }

  /** The calorie button: stably sorts the shown list by calories in the stored
      direction, then flips only that direction. */
  function SortByKcal(s: ViewState): (r: ViewState)
    ensures multiset(r.list) == multiset(s.list)
    ensures Ordered(r.list, Kcal, s.kcalDir)
    ensures Stable(r.list, s.list, Kcal)
    ensures r.kcalDir != s.kcalDir && r.sugarDir == s.sugarDir
    ensures r.term == s.term && r.selection == s.selection
  {
    s.(list := SortBy(s.list, Kcal, s.kcalDir), kcalDir := Flip(s.kcalDir))
  }

  /** The sugar button: stably sorts the shown list by sugar in the stored
      direction, then flips only that direction. */
  function SortBySugar(s: ViewState): (r: ViewState)
    ensures multiset(r.list) == multiset(s.list)
    ensures Ordered(r.list, Sugar, s.sugarDir)
    ensures Stable(r.list, s.list, Sugar)
    ensures r.sugarDir != s.sugarDir && r.kcalDir == s.kcalDir
    ensures r.term == s.term && r.selection == s.selection
  {
    s.(list := SortBy(s.list, Sugar, s.sugarDir), sugarDir := Flip(s.sugarDir))
  }

  /** A user action on the component. */
  datatype Event = Typed(term: string) | Clicked(company: string) | KcalClicked | SugarClicked

  function Step(catalog: seq<Product>, s: ViewState, e: Event): ViewState {
    match e
    case Typed(t) => HandleInputChange(catalog, s, t)
    case Clicked(c) => ToggleCompanyFilter(catalog, s, c)
    case KcalClicked => SortByKcal(s)
    case SugarClicked => SortBySugar(s)
  }

  /** The state after the actions `es`, in order, starting from mount. */
  function Run(catalog: seq<Product>, es: seq<Event>): ViewState
    decreases |es|
  {
    if |es| == 0 then Initial(catalog)
    else Step(catalog, Run(catalog, es[..|es| - 1]), es[|es| - 1])
  }

  /** Every action keeps the shown list consistent with the term and selection. */
  lemma StepConsistent(catalog: seq<Product>, s: ViewState, e: Event)
    requires Consistent(catalog, s)
    ensures Consistent(catalog, Step(catalog, s, e))
  {
    match e
    case Typed(t) =>
    case Clicked(c) =>
      ToggleNoDup(s.selection, c);
    case KcalClicked =>
    case SugarClicked =>
  }

  /** Whatever the user does, the shown list holds exactly the matching catalog entries. */
  lemma {:induction false} RunConsistent(catalog: seq<Product>, es: seq<Event>)
    ensures Consistent(catalog, Run(catalog, es))
    decreases |es|
  {
    if |es| > 0 {
      RunConsistent(catalog, es[..|es| - 1]);
      StepConsistent(catalog, Run(catalog, es[..|es| - 1]), es[|es| - 1]);
    }
  }

  /** Whatever the user does, the shown list neither invents nor duplicates entries,
      and an entry is shown exactly when it matches the current criteria. */
  lemma RunShowsOnlyMatches(catalog: seq<Product>, es: seq<Event>)
    ensures multiset(Run(catalog, es).list) <= multiset(catalog)
    ensures forall p :: p in Run(catalog, es).list <==>
      p in catalog && Matches(Run(catalog, es).term, Run(catalog, es).selection, p)
  {
    var s := Run(catalog, es);
    RunConsistent(catalog, es);
    DeriveSubMultiset(catalog, s.term, s.selection);
    forall p
      ensures p in s.list <==> p in Derive(catalog, s.term, s.selection)
    {
      assert p in s.list <==> p in multiset(s.list);
    }
  }

  /** Searching again forgets any sort: the list depends only on the term and selection. */
  lemma SearchForgetsSort(catalog: seq<Product>, s: ViewState, t: string)
    ensures HandleInputChange(catalog, SortByKcal(s), t).list == HandleInputChange(catalog, s, t).list
    ensures HandleInputChange(catalog, SortBySugar(s), t).list == HandleInputChange(catalog, s, t).list
  {
  }

  /** Two clicks on the same sort button restore its direction and leave the other one alone. */
  lemma SortTwiceRestoresDirections(s: ViewState)
    ensures SortByKcal(SortByKcal(s)).kcalDir == s.kcalDir
    ensures SortByKcal(SortByKcal(s)).sugarDir == s.sugarDir
    ensures SortBySugar(SortBySugar(s)).sugarDir == s.sugarDir
    ensures SortBySugar(SortBySugar(s)).kcalDir == s.kcalDir
  {
  }

  /** From mount, the first click on a sort button sorts ascending and the second
      sorts descending. */
  lemma FirstClicksAscendThenDescend(catalog: seq<Product>)
    ensures Ordered(SortByKcal(Initial(catalog)).list, Kcal, Asc)
    ensures Ordered(SortByKcal(SortByKcal(Initial(catalog))).list, Kcal, Desc)
    ensures Ordered(SortBySugar(Initial(catalog)).list, Sugar, Asc)
    ensures Ordered(SortBySugar(SortBySugar(Initial(catalog))).list, Sugar, Desc)
  {
  }

  /** A sort click whose list is already in the stored order leaves the list as it is. */
  lemma SortOfOrderedListKeepsIt(s: ViewState)
    requires Ordered(s.list, Kcal, s.kcalDir)
    ensures SortByKcal(s).list == s.list
  {
    SortByOrderedIsIdentity(s.list, Kcal, s.kcalDir);
  }

  /** The two-bar catalog used by the scenarios below: makers "A" and "B",
      the vanilla bar lighter than the chocolate one. */
  function TwoBars(): seq<Product> {
    [Product("v.png", "Vanilla Bar", 180, 12, "A"), Product("c.png", "Choco Bar", 220, 18, "B")]
  }

  /** Selecting both makers and sorting by calories ascending shows the lighter bar first. */
  lemma TwoBarsSortedByKcal()
    ensures SortBy(Derive(TwoBars(), "", ["A", "B"]), Kcal, Asc) == TwoBars()
  {
    var catalog := TwoBars();
    assert Derive(catalog, "", ["A", "B"]) == catalog by {
      DeriveEmptyTerm(catalog, ["A", "B"]);
      FilterAll(p => CompanyMatches(["A", "B"], p), catalog);
    }
    SortByOrderedIsIdentity(catalog, Kcal, Asc);
  }

  /** Selecting maker "B" alone shows only its bar. */
  lemma TwoBarsOneMaker()
    ensures Derive(TwoBars(), "", ["B"]) == [TwoBars()[1]]
  {
    var catalog := TwoBars();
    DeriveEmptyTerm(catalog, ["B"]);
    assert !CompanyMatches(["B"], catalog[0]);
    assert catalog[1..] == [catalog[1]];
  }

  /** The term "BAR" with no selection shows both bars, in catalog order. */
  lemma TwoBarsByTerm()
    ensures Derive(TwoBars(), "BAR", []) == TwoBars()
  {
    var catalog := TwoBars();
    assert Text.OccursAt(Text.Lower(catalog[0].title), Text.Lower("BAR"), 8);
    assert Text.OccursAt(Text.Lower(catalog[1].title), Text.Lower("BAR"), 6);
    DeriveEmptySelection(catalog, "BAR");
    FilterAll(p => TitleMatches("BAR", p), catalog);
  }
}
