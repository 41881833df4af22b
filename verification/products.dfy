/**
 Catalog entries and the two numeric sort actions: a stable sort of the current
 list by calories or by sugar, in the direction stored for that field.
 */
module Products {
  import opened Seqs

  /** One catalog entry. `kcal` and `sugar` hold the numeric values of the
      unit-suffixed texts ("…kcal", "…g") the component parses before comparing. */
  datatype Product = Product(image: string, title: string, kcal: int, sugar: int, company: string)

  /** The two fields a sort button orders by. */
  datatype SortKey = Kcal | Sugar

  /** A stored sort direction, `"asc"` or `"desc"`. */
  datatype Direction = Asc | Desc

  function KeyOf(p: Product, k: SortKey): int {
    match k
    case Kcal => p.kcal
    case Sugar => p.sugar
  }

  /** The direction the next click uses: the other one. */
  function Flip(d: Direction): (r: Direction)
    ensures r != d
  {
    match d
    case Asc => Desc
    case Desc => Asc
  }

  /** The comparator handed to the array sort: negative when `a` goes first,
      zero when the keys tie. */
  function Compare(k: SortKey, d: Direction, a: Product, b: Product): (r: int)
    ensures r <= 0 <==> InOrder(k, d, a, b)
    ensures r == 0 <==> KeyOf(a, k) == KeyOf(b, k)
    ensures r < 0 <==> !InOrder(k, d, b, a)
    ensures r == KeyOf(a, k) - KeyOf(b, k) || r == KeyOf(b, k) - KeyOf(a, k)
  {
    match d
    case Asc => KeyOf(a, k) - KeyOf(b, k)
    case Desc => KeyOf(b, k) - KeyOf(a, k)
  }

  /** `a` may stand before `b` in a list sorted by `k` in direction `d`. */
  predicate InOrder(k: SortKey, d: Direction, a: Product, b: Product) {
    match d
    case Asc => KeyOf(a, k) <= KeyOf(b, k)
    case Desc => KeyOf(a, k) >= KeyOf(b, k)
  }

  /** Non-decreasing by `k` for `Asc`, non-increasing for `Desc`. */
  predicate Ordered(s: seq<Product>, k: SortKey, d: Direction) {
    forall i, j :: 0 <= i < j < |s| ==> InOrder(k, d, s[i], s[j])
  }

  /** The entries of `s` whose key `k` equals `v`, in the order of `s`. */
  function Keyed(s: seq<Product>, k: SortKey, v: int): seq<Product> {
    Filter(p => KeyOf(p, k) == v, s)
  }

  /** `r` keeps the relative order of every group of entries that tie on `k`. */
  ghost predicate Stable(r: seq<Product>, s: seq<Product>, k: SortKey) {
    forall v :: Keyed(r, k, v) == Keyed(s, k, v)
  }

  /** `a` may stand before every entry of `s`. */
  ghost predicate Leads(k: SortKey, d: Direction, a: Product, s: seq<Product>) {
    forall i :: 0 <= i < |s| ==> InOrder(k, d, a, s[i])
  }

  /** An ordered list with a new head is ordered when the head leads the rest. */
  lemma OrderedCons(k: SortKey, d: Direction, a: Product, s: seq<Product>)
    requires Ordered(s, k, d) && Leads(k, d, a, s)
    ensures Ordered([a] + s, k, d)
  {
    var r := [a] + s;
    forall i, j | 0 <= i < j < |r|
      ensures InOrder(k, d, r[i], r[j])
    {
      assert r[j] == s[j - 1];
      if i > 0 {
        assert r[i] == s[i - 1];
      }
    }
  }

  /** The head of an ordered list leads its tail. */
  lemma OrderedHeadLeads(k: SortKey, d: Direction, s: seq<Product>)
    requires |s| > 0 && Ordered(s, k, d)
    ensures Ordered(s[1..], k, d) && Leads(k, d, s[0], s[1..])
  {
    forall i | 0 <= i < |s[1..]|
      ensures InOrder(k, d, s[0], s[1..][i])
    {
      assert s[1..][i] == s[i + 1];
    }
  }

  /** Places `x` in front of the first entry of `t` that it does not follow. */
  function Insert(k: SortKey, d: Direction, x: Product, t: seq<Product>): (r: seq<Product>)
    ensures multiset(r) == multiset(t) + multiset{x}
    decreases |t|
  {
    if |t| == 0 then [x]
    else if Compare(k, d, x, t[0]) <= 0 then
      [x] + t
    else
      assert t == [t[0]] + t[1..];
      [t[0]] + Insert(k, d, x, t[1..])
  }

  /** Whoever leads `t` and `x` leads the list with `x` inserted. */
  lemma {:induction false} InsertLeads(k: SortKey, d: Direction, a: Product, x: Product, t: seq<Product>)
    requires Leads(k, d, a, t) && InOrder(k, d, a, x)
    ensures Leads(k, d, a, Insert(k, d, x, t))
    decreases |t|
  {
    var r := Insert(k, d, x, t);
    if |t| > 0 && Compare(k, d, x, t[0]) > 0 {
      var rest := Insert(k, d, x, t[1..]);
      assert Leads(k, d, a, t[1..]) by {
        forall i | 0 <= i < |t[1..]|
          ensures InOrder(k, d, a, t[1..][i])
        {
          assert t[1..][i] == t[i + 1];
        }
      }
      InsertLeads(k, d, a, x, t[1..]);
      forall i | 0 <= i < |r|
        ensures InOrder(k, d, a, r[i])
      {
        if i > 0 {
          assert r[i] == rest[i - 1];
        }
      }
    } else if |t| > 0 {
      forall i | 0 <= i < |r|
        ensures InOrder(k, d, a, r[i])
      {
        if i > 0 {
          assert r[i] == t[i - 1];
        }
      }
    }
  }

  /** Inserting into an ordered list keeps it ordered. */
  lemma {:induction false} InsertOrdered(k: SortKey, d: Direction, x: Product, t: seq<Product>)
    requires Ordered(t, k, d)
    ensures Ordered(Insert(k, d, x, t), k, d)
    decreases |t|
  {
    if |t| == 0 {
    } else if Compare(k, d, x, t[0]) <= 0 {
      assert Leads(k, d, x, t) by {
        forall i | 0 <= i < |t|
          ensures InOrder(k, d, x, t[i])
        {
          if i > 0 {
            assert InOrder(k, d, t[0], t[i]);
          }
        }
      }
      OrderedCons(k, d, x, t);
    } else {
      OrderedHeadLeads(k, d, t);
      InsertOrdered(k, d, x, t[1..]);
      InsertLeads(k, d, t[0], x, t[1..]);
      OrderedCons(k, d, t[0], Insert(k, d, x, t[1..]));
    }
  }

  /** Inserting `x` puts it ahead of every entry it ties with. */
  lemma {:induction false} InsertKeyed(k: SortKey, d: Direction, x: Product, t: seq<Product>, v: int)
    ensures Keyed(Insert(k, d, x, t), k, v) == Keyed([x], k, v) + Keyed(t, k, v)
    decreases |t|
  {
    var f := p => KeyOf(p, k) == v;
    FilterAppend(f, [x], t);
    if |t| > 0 && Compare(k, d, x, t[0]) > 0 {
      var rest := Insert(k, d, x, t[1..]);
      InsertKeyed(k, d, x, t[1..], v);
      assert t == [t[0]] + t[1..];
      FilterAppend(f, [t[0]], rest);
      FilterAppend(f, [t[0]], t[1..]);
      FilterAppend(f, [x], t[1..]);
      if f(x) {
        assert !f(t[0]);
      }
    }
  }

  /** Stable sort of `s` by `k` in direction `d`: each entry is inserted in front
      of the entries it ties with, which all come later in `s`. */
  function SortBy(s: seq<Product>, k: SortKey, d: Direction): (r: seq<Product>)
    ensures multiset(r) == multiset(s)
    ensures Ordered(r, k, d)
    ensures Stable(r, s, k)
    decreases |s|
  {
    if |s| == 0 then []
    else
      var t := SortBy(s[1..], k, d);
      assert s == [s[0]] + s[1..];
      InsertOrdered(k, d, s[0], t);
      SortByStableStep(s, t, k, d);
      Insert(k, d, s[0], t)
  }

  /** Inserting the head into a stable arrangement of the tail is stable for the whole list. */
  lemma SortByStableStep(s: seq<Product>, t: seq<Product>, k: SortKey, d: Direction)
    requires |s| > 0 && Stable(t, s[1..], k)
    ensures Stable(Insert(k, d, s[0], t), s, k)
  {
    forall v
      ensures Keyed(Insert(k, d, s[0], t), k, v) == Keyed(s, k, v)
    {
      InsertKeyed(k, d, s[0], t, v);
      assert s == [s[0]] + s[1..];
      FilterAppend(p => KeyOf(p, k) == v, [s[0]], s[1..]);
    }
  }

  /** The head of a non-empty list is in its own tie group. */
  lemma KeyedHead(s: seq<Product>, k: SortKey)
    ensures |s| > 0 ==> s[0] in Keyed(s, k, KeyOf(s[0], k))
  {
  }

  /** The head of `a` may stand before the head of `b` when both are ordered the
      same way and their tie groups agree. */
  lemma HeadsInOrder(a: seq<Product>, b: seq<Product>, k: SortKey, d: Direction)
    requires |a| > 0 && |b| > 0
    requires Ordered(b, k, d) && Stable(a, b, k)
    ensures InOrder(k, d, b[0], a[0])
  {
    KeyedHead(a, k);
    var v := KeyOf(a[0], k);
    assert Keyed(a, k, v) == Keyed(b, k, v);
    var j :| 0 <= j < |b| && b[j] == a[0];
    if j > 0 {
      assert InOrder(k, d, b[0], b[j]);
    }
  }

  /** Two sequences ordered the same way, whose tie groups agree, are equal. */
  lemma {:induction false} OrderedStableUnique(a: seq<Product>, b: seq<Product>, k: SortKey, d: Direction)
    requires Ordered(a, k, d) && Ordered(b, k, d)
    requires Stable(a, b, k)
    ensures a == b
    decreases |a| + |b|
  {
    KeyedHead(a, k);
    KeyedHead(b, k);
    if |a| > 0 && |b| > 0 {
      HeadsInOrder(a, b, k, d);
      HeadsInOrder(b, a, k, d);
      var va := KeyOf(a[0], k);
      assert KeyOf(b[0], k) == va;
      assert Keyed(a, k, va) == Keyed(b, k, va);
      assert Keyed(a, k, va)[0] == a[0];
      assert Keyed(b, k, va)[0] == b[0];
      forall v
        ensures Keyed(a[1..], k, v) == Keyed(b[1..], k, v)
      {
        assert a == [a[0]] + a[1..];
        assert b == [b[0]] + b[1..];
        FilterAppend(p => KeyOf(p, k) == v, [a[0]], a[1..]);
        FilterAppend(p => KeyOf(p, k) == v, [b[0]], b[1..]);
        var h := Keyed([a[0]], k, v);
        assert Keyed(a, k, v) == Keyed(b, k, v);
        assert Keyed(a[1..], k, v) == Keyed(a, k, v)[|h|..];
        assert Keyed(b[1..], k, v) == Keyed(b, k, v)[|h|..];
      }
      OrderedHeadLeads(k, d, a);
      OrderedHeadLeads(k, d, b);
      OrderedStableUnique(a[1..], b[1..], k, d);
      assert a == [a[0]] + a[1..];
      assert b == [b[0]] + b[1..];
    }
  }

  /** `SortBy` is the one ordered arrangement of `s` that keeps every tie group in
      its original order. */
  lemma {:induction false} SortByCharacterized(s: seq<Product>, r: seq<Product>, k: SortKey, d: Direction)
    ensures r == SortBy(s, k, d) <==> Ordered(r, k, d) && Stable(r, s, k)
  {
    var t := SortBy(s, k, d);
    if Ordered(r, k, d) && Stable(r, s, k) {
      assert Stable(r, t, k);
      OrderedStableUnique(r, t, k, d);
    }
  }

  /** Sorting the same way twice changes nothing the second time. */
  lemma {:induction false} SortByIdempotent(s: seq<Product>, k: SortKey, d: Direction)
    ensures SortBy(SortBy(s, k, d), k, d) == SortBy(s, k, d)
  {
    var t := SortBy(s, k, d);
    SortByCharacterized(t, t, k, d);
  }

  /** A list already in order comes back unchanged. */
  lemma {:induction false} SortByOrderedIsIdentity(s: seq<Product>, k: SortKey, d: Direction)
    requires Ordered(s, k, d)
    ensures SortBy(s, k, d) == s
  {
    SortByCharacterized(s, s, k, d);
  }
}
