# Ice-cream catalog view — a Dafny model

The page shows a fixed catalog of ice-cream products. Each product has an image, a
title, a calorie value, a sugar value and a manufacturer. The `IceCream` component
keeps the list currently shown, the search term, the manufacturers selected with
the buttons, and one stored direction ("asc"/"desc") for each of the two sort
buttons. This project models the component's view derivation as pure functions
over immutable values and proves what each action does to the shown list:

- **Search and manufacturer filter.** Each search restarts from the full catalog. It
  keeps the products of a selected manufacturer when any manufacturer is selected.
  It then keeps the products whose lower-cased title contains the lower-cased term
  when the term is not empty (`Search.Derive`).
- **Manufacturer toggle.** Clicking a selected manufacturer removes every copy of it
  from the selection. Clicking any other manufacturer appends it (`Search.Toggle`).
- **Sort buttons.** Each button stably sorts the current list by its field, in its
  stored direction, and then flips only that direction (`Products.SortBy`,
  `IceCream.SortByKcal`, `IceCream.SortBySugar`).
- **Initial state.** The full catalog, an empty term, no selection, and both
  directions ascending (`IceCream.Initial`).

Files:

- `seqs.dfy` (module `Seqs`): order-preserving filtering, subsequences and
  duplicate-freeness.
- `text.dfy` (module `Text`): lower-casing and substring search.
- `products.dfy` (module `Products`): the product record, the comparator and the
  stable sort.
- `search.dfy` (module `Search`): the filter derivation and the toggle.
- `ice_cream.dfy` (module `IceCream`): the component state, its handlers, runs of
  user actions and the invariant they keep.

Behaviour of the component worth knowing:

- There are two independent direction fields, one per sort button. Each click flips
  its own field, and nothing resets a direction to ascending.
- The selection is an array in click order, not a set. Toggling removes every copy
  or appends one copy.
- An empty selection means "no manufacturer filter", so the manufacturer step drops
  no product.
- A sort reorders the list currently shown, not the catalog. Products with equal
  keys keep their order in that list, which can be the result of an earlier sort by
  the other field.

## Model

| member | source | states |
|---|---|---|
| Text.LowerChar | src/components/iceCream/index.tsx:38 | The result is never an ASCII capital letter. A capital maps to the matching small letter and every other character is unchanged. |
| Text.Contains | src/components/iceCream/index.tsx:38 | True exactly when the term occurs at some index of the title. The empty term occurs in every title, as with `includes("")`. |
| Text.ContainsLower | src/components/iceCream/index.tsx:38 | A case-sensitive match is still a match after both title and term are lower-cased. |
| Text.Lower | src/components/iceCream/index.tsx:38 | The result has the input's length and contains no ASCII capital letter. Each character is lower-cased in place, and every character that is not a capital is kept. |
| Text.LowerIdempotent | src/components/iceCream/index.tsx:38 | Lower-casing an already lower-cased string changes nothing. |
| Text.ContainsLowerIgnoresCase | src/components/iceCream/index.tsx:38 | The lower-cased title contains the lower-cased term exactly when the term occurs at some index of the title, with each character compared without regard to case. |
| Search.CompanyStep | src/components/iceCream/index.tsx:30-34 | With an empty selection, no product is dropped. Otherwise a product of the list survives exactly when its company is in the selection. The result is a subsequence of the list, so order is kept, and every survivor keeps all its copies. |
| Search.TitleStep | src/components/iceCream/index.tsx:36-40 | With an empty term, no product is dropped. Otherwise a product survives exactly when its lower-cased title contains the lower-cased term. The result is a subsequence of the list, so order is kept, and every survivor keeps all its copies. |
| Search.Derive | src/components/iceCream/index.tsx:27-43 | A product is shown exactly when it is in the catalog and passes both the company test and the title test. |
| Search.DeriveIsOneFilter | src/components/iceCream/index.tsx:28-40 | The two steps in a row equal one order-preserving pass over the catalog with the combined test. |
| Search.DeriveIsSubsequence | src/components/iceCream/index.tsx:28-42 | The derived list is a subsequence of the catalog, so catalog order is kept and any earlier sort is discarded. |
| Search.DeriveCount | src/components/iceCream/index.tsx:28-42 | A matching product appears exactly as often as in the catalog. A non-matching product never appears. |
| Search.DeriveSubMultiset | src/components/iceCream/index.tsx:28-42 | The derived list neither invents nor duplicates catalog entries. |
| Search.DeriveNoCriteria | src/components/iceCream/index.tsx:28-40 | With no term and no selection, the derived list is the catalog itself. |
| Search.DeriveEmptyTerm | src/components/iceCream/index.tsx:36-40 | With an empty term, the result is exactly the company filter over the catalog. |
| Search.DeriveEmptySelection | src/components/iceCream/index.tsx:30-34 | With an empty selection, the result is exactly the title filter over the catalog. |
| Search.DeriveIdempotent | src/components/iceCream/index.tsx:27-43 | Deriving again from the derived list with the same term and selection gives the same list. |
| Search.DeriveDependsOnMembership | src/components/iceCream/index.tsx:30-34 | Two selections with the same members give the same list, whatever their order or repetitions. |
| Search.Toggle | src/components/iceCream/index.tsx:53-57 | Only the toggled company changes membership, and its membership is inverted. A present company is removed everywhere, with the others kept in order and with their counts. An absent company is appended at the end. |
| Search.ToggleTwiceAbsent | src/components/iceCream/index.tsx:54-56 | Toggling an absent company twice restores the selection exactly. |
| Search.ToggleTwicePresent | src/components/iceCream/index.tsx:54-56 | Toggling a present company twice restores the set of selected companies. |
| Search.ToggleNoDup | src/components/iceCream/index.tsx:53-57 | A selection without repeated companies keeps that property after a toggle. |
| Products.Flip | src/components/iceCream/index.tsx:68 | The next direction is always the other of the two directions. |
| Products.Compare | src/components/iceCream/index.tsx:62-66 | The comparator is non-positive exactly when the pair is in the stored direction's order, and zero exactly when the keys tie. It is negative exactly when the reversed pair is out of order, and its value is the difference of the two keys in one order or the other. |
| Products.SortBy | src/components/iceCream/index.tsx:62-66 | The result is a permutation of the input. It is non-decreasing by the key for "asc" and non-increasing for "desc", and products with equal keys keep their relative order. |
| Products.OrderedStableUnique | src/components/iceCream/index.tsx:62-66 | Two lists ordered the same way, with the same order inside every tie group, are equal. |
| Products.SortByCharacterized | src/components/iceCream/index.tsx:62-66 | A list equals the sort result exactly when it is ordered and stable with respect to the input. Any stable sort with this comparator therefore gives the same list. |
| Products.SortByIdempotent | src/components/iceCream/index.tsx:62-66 | Sorting a sorted result again in the same direction changes nothing. |
| Products.SortByOrderedIsIdentity | src/components/iceCream/index.tsx:62-66 | A list that is already in order comes back unchanged. |
| IceCream.Initial | src/components/iceCream/index.tsx:15-24 | At mount, the shown list is the whole catalog, the term is empty, no company is selected, and both directions are "asc". That list is also what a search with no term and no selection shows, so the state satisfies the consistency invariant. |
| IceCream.HandleInputChange | src/components/iceCream/index.tsx:47-51 | Typing stores the term and keeps the selection and directions. The shown list becomes exactly one order-preserving pass over the catalog with the combined company and title test, so every matching product keeps all its copies. |
| IceCream.ToggleCompanyFilter | src/components/iceCream/index.tsx:53-59 | A button click inverts only that company's membership and keeps term and directions. The shown list becomes exactly one order-preserving pass over the catalog with the test for the term and the new selection, so every matching product keeps all its copies. |
| IceCream.SortByKcal | src/components/iceCream/index.tsx:61-69 | The list is permuted into calorie order in the stored direction, with ties keeping their order. Only the calorie direction flips. |
| IceCream.SortBySugar | src/components/iceCream/index.tsx:71-81 | The list is permuted into sugar order in the stored direction, with ties keeping their order. Only the sugar direction flips. |
| IceCream.StepConsistent | src/components/iceCream/index.tsx:47-81 | Each user action keeps the invariant. The shown list is a permutation of the matching catalog products, and the selection has no repeats. |
| IceCream.RunConsistent | src/components/iceCream/index.tsx:15-81 | After any sequence of user actions from mount, the invariant holds. |
| IceCream.RunShowsOnlyMatches | src/components/iceCream/index.tsx:15-81 | After any sequence of actions, the shown list is a sub-multiset of the catalog. A product is shown exactly when it matches the current term and selection. |
| IceCream.SearchForgetsSort | src/components/iceCream/index.tsx:27-43 | A search gives the same list whether or not a sort happened just before it. |
| IceCream.SortTwiceRestoresDirections | src/components/iceCream/index.tsx:61-81 | Two clicks on the same sort button restore its direction and leave the other button's direction unchanged. |
| IceCream.FirstClicksAscendThenDescend | src/components/iceCream/index.tsx:19-24 | From mount, a button's first click sorts ascending and its second click sorts descending. |
| IceCream.SortOfOrderedListKeepsIt | src/components/iceCream/index.tsx:61-69 | A calorie click on a list already in the stored order leaves the list unchanged. |
| IceCream.TwoBarsSortedByKcal | src/components/iceCream/index.tsx:27-69 | On a two-bar catalog, selecting both makers and sorting by calories ascending shows the lighter bar first. |
| IceCream.TwoBarsOneMaker | src/components/iceCream/index.tsx:30-34 | On the same catalog, selecting one maker shows only that maker's bar. |
| IceCream.TwoBarsByTerm | src/components/iceCream/index.tsx:36-40 | On the same catalog, the term "BAR" with no selection shows both bars in catalog order. |

## Left out

- The 300 ms debounce around the search (index.tsx:27, 43) is left out. The search takes effect at once. Interleavings are not modelled, such as a sort click inside the debounce window whose result is then replaced by the late search.
- The parsing of the calorie and sugar texts with `parseInt`/`parseFloat` after stripping "kcal"/"g" is left out (index.tsx:63-64, 73-74). `Product.kcal` and `Product.sugar` are the parsed values as integers. Fractional sugar values and `NaN` from malformed text are not modelled, and neither is the floating-point subtraction in the comparator.
- Text.Lower: lower-cases ASCII capitals only, one character at a time. JavaScript's `toLowerCase` also maps non-ASCII letters, and some of its mappings change the string's length.
- Text.LowerChar: lower-cases ASCII capitals only. JavaScript's `toLowerCase` also maps non-ASCII letters, and `includes` compares UTF-16 code units rather than Unicode scalar values.
- The engine's sort algorithm is not modelled as such. `Products.SortBy` is a stable insertion sort, and `Products.SortByCharacterized` shows that every stable sort with this comparator gives the same result.
- Rendering, styling and the button rows (index.tsx:83-154) are left out. The list of manufacturer names at index.tsx:109 is not modelled: a click can carry any company string.
- The React state setters are left out. Each handler returns the whole next state, and the setters' batching and re-render timing are not modelled.
- src/components/iceCream/iceCreamCard.tsx (lazy image reveal and link construction), src/pages/index.tsx (page wrapper) and src/types/index.tsx (type declarations) are not part of this model. The catalog data module is not part of this model either: the catalog is a parameter.
