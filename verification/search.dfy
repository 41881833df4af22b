/**
 The list derivation behind the search box and the manufacturer buttons: a company
 step, then a case-insensitive title step, always starting from the whole catalog;
 and the toggle that edits the list of selected manufacturers.
 */
module Search {
  import opened Seqs
  import opened Text
  import opened Products

  /** The company step keeps `p`: no selection means no company filter. */
  predicate CompanyMatches(selection: seq<string>, p: Product) {
    |selection| == 0 || p.company in selection
  }

  /** The title step keeps `p`: an empty term means no title filter. */
  predicate TitleMatches(term: string, p: Product) {
    |term| == 0 || Contains(Lower(p.title), Lower(term))
  }

  /** `p` survives both steps. */
  predicate Matches(term: string, selection: seq<string>, p: Product) {
    CompanyMatches(selection, p) && TitleMatches(term, p)
  }

  /** Keeps the entries made by a selected company, when any company is selected. */
  function CompanyStep(list: seq<Product>, selection: seq<string>): (r: seq<Product>)
    ensures forall i :: 0 <= i < |r| ==> r[i] in list && CompanyMatches(selection, r[i])
    ensures forall i :: 0 <= i < |list| && CompanyMatches(selection, list[i]) ==> list[i] in r
    ensures IsSubsequence(r, list)
    ensures forall p :: multiset(r)[p] == if CompanyMatches(selection, p) then multiset(list)[p] else 0
  {
    var f := (p: Product) => CompanyMatches(selection, p);
    var r := if |selection| > 0 then Filter((p: Product) => p.company in selection, list) else list;
    assert r == Filter(f, list) by {
      if |selection| > 0 {
        FilterExt((p: Product) => p.company in selection, f, list);
      } else {
        FilterAll(f, list);
      }
    }
    FilterIsSubsequence(f, list);
    assert forall p :: multiset(r)[p] == if f(p) then multiset(list)[p] else 0 by {
      forall p
        ensures multiset(r)[p] == if f(p) then multiset(list)[p] else 0
      {
        FilterCount(f, list, p);
      }
    }
    r
  }

  /** Keeps the entries whose lower-cased title contains the lower-cased term,
      when the term is not empty. */
  function TitleStep(list: seq<Product>, term: string): (r: seq<Product>)
    ensures forall i :: 0 <= i < |r| ==> r[i] in list && TitleMatches(term, r[i])
    ensures forall i :: 0 <= i < |list| && TitleMatches(term, list[i]) ==> list[i] in r
    ensures IsSubsequence(r, list)
    ensures forall p :: multiset(r)[p] == if TitleMatches(term, p) then multiset(list)[p] else 0
  {
    var f := (p: Product) => TitleMatches(term, p);
    var r := if |term| > 0 then Filter((p: Product) => Contains(Lower(p.title), Lower(term)), list) else list;
    assert r == Filter(f, list) by {
      if |term| > 0 {
        FilterExt((p: Product) => Contains(Lower(p.title), Lower(term)), f, list);
      } else {
        FilterAll(f, list);
      }
    }
    FilterIsSubsequence(f, list);
    assert forall p :: multiset(r)[p] == if f(p) then multiset(list)[p] else 0 by {
      forall p
        ensures multiset(r)[p] == if f(p) then multiset(list)[p] else 0
      {
        FilterCount(f, list, p);
      }
    }
    r
  }

  /** The list shown after a search: both steps applied to the full catalog. */
  function Derive(catalog: seq<Product>, term: string, selection: seq<string>): (r: seq<Product>)
    ensures forall p :: p in r <==> p in catalog && Matches(term, selection, p)
  {
    TitleStep(CompanyStep(catalog, selection), term)
  }

  /** The two steps in a row are one pass over the catalog with the combined test. */
  lemma DeriveIsOneFilter(catalog: seq<Product>, term: string, selection: seq<string>)
    ensures Derive(catalog, term, selection) == Filter(p => Matches(term, selection, p), catalog)
  {
    var company := (p: Product) => CompanyMatches(selection, p);
    var title := (p: Product) => TitleMatches(term, p);
    var both := (p: Product) => Matches(term, selection, p);
    var c := CompanyStep(catalog, selection);
    if |selection| == 0 {
      FilterAll(company, catalog);
    } else {
      FilterExt((p: Product) => p.company in selection, company, catalog);
    }
    assert c == Filter(company, catalog);
    if |term| == 0 {
      FilterAll(title, c);
    } else {
      FilterExt((p: Product) => Contains(Lower(p.title), Lower(term)), title, c);
    }
    assert Derive(catalog, term, selection) == Filter(title, c);
    FilterFusion(company, title, both, catalog);
  }

  /** The shown list keeps catalog order: any earlier sort is forgotten. */
  lemma DeriveIsSubsequence(catalog: seq<Product>, term: string, selection: seq<string>)
    ensures IsSubsequence(Derive(catalog, term, selection), catalog)
  {
    DeriveIsOneFilter(catalog, term, selection);
    FilterIsSubsequence(p => Matches(term, selection, p), catalog);
  }

  /** Every matching entry appears as often as in the catalog, every other entry never. */
  lemma DeriveCount(catalog: seq<Product>, term: string, selection: seq<string>, p: Product)
    ensures multiset(Derive(catalog, term, selection))[p]
         == if Matches(term, selection, p) then multiset(catalog)[p] else 0
  {
    DeriveIsOneFilter(catalog, term, selection);
    FilterCount(q => Matches(term, selection, q), catalog, p);
  }

  /** Nothing is invented or duplicated. */
  lemma DeriveSubMultiset(catalog: seq<Product>, term: string, selection: seq<string>)
    ensures multiset(Derive(catalog, term, selection)) <= multiset(catalog)
  {
    forall p
      ensures multiset(Derive(catalog, term, selection))[p] <= multiset(catalog)[p]
    {
      DeriveCount(catalog, term, selection, p);
    }
  }

  /** With no term and no selection the whole catalog is shown, in catalog order. */
  lemma DeriveNoCriteria(catalog: seq<Product>)
    ensures Derive(catalog, "", []) == catalog
  {
  }

  /** An empty term leaves exactly the company step's result. */
  lemma DeriveEmptyTerm(catalog: seq<Product>, selection: seq<string>)
    ensures Derive(catalog, "", selection) == Filter(p => CompanyMatches(selection, p), catalog)
  {
    DeriveIsOneFilter(catalog, "", selection);
    FilterExt(p => Matches("", selection, p), p => CompanyMatches(selection, p), catalog);
  }

  /** An empty selection leaves exactly the title step's result. */
  lemma DeriveEmptySelection(catalog: seq<Product>, term: string)
    ensures Derive(catalog, term, []) == Filter(p => TitleMatches(term, p), catalog)
  {
    DeriveIsOneFilter(catalog, term, []);
    FilterExt(p => Matches(term, [], p), p => TitleMatches(term, p), catalog);
  }

  /** Deriving again from the derived list, with the same term and selection,
      gives the same list. */
  lemma DeriveIdempotent(catalog: seq<Product>, term: string, selection: seq<string>)
    ensures Derive(Derive(catalog, term, selection), term, selection) == Derive(catalog, term, selection)
  {
    var f := (p: Product) => Matches(term, selection, p);
    var r := Derive(catalog, term, selection);
    DeriveIsOneFilter(catalog, term, selection);
    DeriveIsOneFilter(r, term, selection);
    FilterIdempotent(f, catalog);
  }

  /** The selection buttons only look at membership, so reordering or repeating
      selected companies does not change the shown list. */
  lemma DeriveDependsOnMembership(catalog: seq<Product>, term: string, s1: seq<string>, s2: seq<string>)
    requires forall c :: c in s1 <==> c in s2
    ensures Derive(catalog, term, s1) == Derive(catalog, term, s2)
  {
    DeriveIsOneFilter(catalog, term, s1);
    DeriveIsOneFilter(catalog, term, s2);
    assert |s1| == 0 <==> |s2| == 0 by {
      if |s1| > 0 {
        assert s1[0] in s2;
      }
      if |s2| > 0 {
        assert s2[0] in s1;
      }
    }
    FilterExt(p => Matches(term, s1, p), p => Matches(term, s2, p), catalog);
  }

  /** A manufacturer button: removes every copy of a selected company, otherwise
      appends it. */
  function Toggle(selection: seq<string>, c: string): (r: seq<string>)
    ensures c in r <==> c !in selection
    ensures forall x :: x != c ==> (x in r <==> x in selection)
    ensures c in selection ==> IsSubsequence(r, selection) && multiset(r) == multiset(selection)[c := 0]
    ensures c !in selection ==> r == selection + [c]
  {
    if c in selection then
      var r := Filter(x => x != c, selection);
      FilterIsSubsequence(x => x != c, selection);
      assert forall x :: multiset(r)[x] == multiset(selection)[c := 0][x] by {
        forall x
          ensures multiset(r)[x] == multiset(selection)[c := 0][x]
        {
          FilterCount(y => y != c, selection, x);
        }
      }
      r
    else
      selection + [c]
  }

  /** Toggling a company that was not selected twice restores the selection exactly. */
  lemma ToggleTwiceAbsent(selection: seq<string>, c: string)
    requires c !in selection
    ensures Toggle(Toggle(selection, c), c) == selection
  {
    var f := x => x != c;
    FilterAppend(f, selection, [c]);
    FilterAll(f, selection);
  }

  /** Toggling a selected company twice restores which companies are selected. */
  lemma ToggleTwicePresent(selection: seq<string>, c: string)
    requires c in selection
    ensures forall x :: x in Toggle(Toggle(selection, c), c) <==> x in selection
  {
  }

  /** Toggling keeps a duplicate-free selection duplicate-free. */
  lemma ToggleNoDup(selection: seq<string>, c: string)
    requires NoDup(selection)
    ensures NoDup(Toggle(selection, c))
  {
    if c in selection {
      FilterNoDup(x => x != c, selection);
    } else {
      var r := selection + [c];
      forall i, j | 0 <= i < j < |r|
        ensures r[i] != r[j]
      {
        if j == |selection| {
          assert r[i] == selection[i];
        }
      }
    }
  }
}
