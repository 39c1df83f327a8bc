/**
 * The fixture catalog built once at start-up by `generateFakeCategories`:
 * 100 categories whose names are made unique by appending ` 1`, ` 2`, ...
 * to a random department name, then sorted by name.
 *
 * The faker library is an oracle: `faker(i)` is what the i-th iteration of the
 * outer loop draws (base name, id, product count, creation date), or `None` when
 * one of those calls throws. `localeCompare` is an abstract order `le` on names.
 */
module Catalog {
  import opened Wrappers
  import JsRuntime

  const CatalogSize: nat := 100

  /** `faker.number.int({ min: 10, max: 1000 })` promises a value in this range. */
  type DrawnCount = x: int | 10 <= x <= 1000 witness 10

  /** What one iteration of the outer loop takes from faker. */
  datatype Draw = Draw(baseName: string, id: string, productCount: DrawnCount, createdAt: int)

  datatype Category = Category(id: string, name: string, productCount: int, createdAt: int)

  /** The k-th name tried for `base`: `base` itself, then `base 1`, `base 2`, ... */
  function Candidate(base: string, k: nat): (r: string)
    ensures k == 0 <==> r == base
    ensures k > 0 ==> |r| > |base| + 1 && r[..|base|] == base && r[|base|] == ' '
  {
    if k == 0 then base else base + " " + JsRuntime.Decimal(k)
  }

  /** The names tried for one base name never repeat, which is why the suffix loop ends. */
  lemma CandidateInjective(base: string, i: nat, j: nat)
    requires i != j
    ensures Candidate(base, i) != Candidate(base, j)
  {
    if i != 0 && j != 0 {
      var a, b := Candidate(base, i), Candidate(base, j);
      if a == b {
        assert a[|base| + 1..] == JsRuntime.Decimal(i);
        assert b[|base| + 1..] == JsRuntime.Decimal(j);
        JsRuntime.DecimalInjective(i, j);
      }
    }
  }

  /**
   * The first candidate from the k-th on that is not in `remaining`. Every
   * rejected candidate is taken out of `remaining`, so the recursion ends.
   */
  function FreshFrom(base: string, remaining: set<string>, k: nat): (r: string)
    decreases |remaining|
  {
    var c := Candidate(base, k);
    if c !in remaining then c else FreshFrom(base, remaining - {c}, k + 1)
  }

  lemma {:induction false} FreshFromSpec(base: string, used: set<string>, remaining: set<string>, k: nat)
    requires forall j :: k <= j ==> (Candidate(base, j) in remaining <==> Candidate(base, j) in used)
    requires forall j :: 0 <= j < k ==> Candidate(base, j) in used
    ensures FreshFrom(base, remaining, k) !in used
    ensures exists m :: k <= m && FreshFrom(base, remaining, k) == Candidate(base, m)
                        && forall j :: 0 <= j < m ==> Candidate(base, j) in used
    decreases |remaining|
  {
    var c := Candidate(base, k);
    if c in remaining {
      forall j | k + 1 <= j
        ensures Candidate(base, j) in remaining - {c} <==> Candidate(base, j) in used
      {
        CandidateInjective(base, k, j);
      }
      FreshFromSpec(base, used, remaining - {c}, k + 1);
    } else {
      assert FreshFrom(base, remaining, k) == Candidate(base, k);
    }
  }

  /**
   * The name the suffix loop settles on: the first of `base`, `base 1`,
   * `base 2`, ... that is not already used.
   */
  function FreshName(base: string, used: set<string>): (name: string)
    ensures name !in used
  {
    FreshFromSpec(base, used, used, 0);
    FreshFrom(base, used, 0)
  }

  /** The fresh name is the first of the candidates for `base` that is not used. */
  lemma FreshNameIsFirstUnused(base: string, used: set<string>)
    ensures exists m: nat :: FreshName(base, used) == Candidate(base, m)
                             && forall j :: 0 <= j < m ==> Candidate(base, j) in used
  {
    FreshFromSpec(base, used, used, 0);
  }

  /** The inner `while (uniqueNames.has(candidateName))` loop. */
  method PickUniqueName(baseName: string, uniqueNames: set<string>) returns (candidateName: string)
    ensures candidateName == FreshName(baseName, uniqueNames)
  {
    candidateName := baseName;
    var suffix: nat := 1;
    ghost var remaining := uniqueNames;
    while candidateName in uniqueNames
      invariant suffix >= 1 && candidateName == Candidate(baseName, suffix - 1)
      invariant forall j :: suffix - 1 <= j ==> (Candidate(baseName, j) in remaining <==> Candidate(baseName, j) in uniqueNames)
      invariant FreshFrom(baseName, remaining, suffix - 1) == FreshFrom(baseName, uniqueNames, 0)
      decreases |remaining|
    {
      forall j | suffix <= j
        ensures Candidate(baseName, j) in remaining - {candidateName} <==> Candidate(baseName, j) in uniqueNames
      {
        CandidateInjective(baseName, suffix - 1, j);
      }
      remaining := remaining - {candidateName};
      candidateName := baseName + " " + JsRuntime.Decimal(suffix);
      suffix := suffix + 1;
    }
  }

  function NamesOf(cs: seq<Category>): set<string> {
    set c | c in cs :: c.name
  }

  predicate DistinctNames(cs: seq<Category>) {
    forall i, j :: 0 <= i < j < |cs| ==> cs[i].name != cs[j].name
  }

  /** The category pushed for draw `d` when `used` holds the names pushed so far. */
  function Entry(d: Draw, used: set<string>): (c: Category)
    ensures c.name !in used
    ensures c.id == d.id && c.productCount == d.productCount && c.createdAt == d.createdAt
  {
    Category(d.id, FreshName(d.baseName, used), d.productCount, d.createdAt)
  }

  /**
   * The list the outer loop has pushed after n iterations, before sorting;
   * `None` once a faker call has thrown.
   */
  function Build(faker: nat -> Option<Draw>, n: nat): Option<seq<Category>> {
    if n == 0 then Some([])
    else
      match Build(faker, n - 1)
      case None => None
      case Some(cs) =>
        match faker(n - 1)
        case None => None
        case Some(d) => Some(cs + [Entry(d, NamesOf(cs))])
  }

  /** Once a draw has thrown, the build stays failed. */
  lemma {:induction false} BuildStaysFailed(faker: nat -> Option<Draw>, n: nat, m: nat)
    requires n <= m && Build(faker, n) == None
    ensures Build(faker, m) == None
    decreases m - n
  {
    if n < m {
      BuildStaysFailed(faker, n + 1, m);
    }
  }

  /** The build fails exactly when one of the first n draws throws. */
  lemma {:induction false} BuildFails(faker: nat -> Option<Draw>, n: nat)
    ensures Build(faker, n).None? <==> exists i :: 0 <= i < n && faker(i).None?
  {
    if n > 0 {
      BuildFails(faker, n - 1);
    }
  }

  /**
   * A successful build has one entry per draw: entry i is draw i's id, count and
   * date under the first unused name for draw i's base name, given the names of
   * the entries before it.
   */
  lemma {:induction false} BuildEntries(faker: nat -> Option<Draw>, n: nat)
    requires Build(faker, n).Some?
    ensures var cs := Build(faker, n).value;
      && |cs| == n
      && forall i :: 0 <= i < n ==> faker(i).Some? && cs[i] == Entry(faker(i).value, NamesOf(cs[..i]))
  {
    if n > 0 {
      var cs := Build(faker, n - 1).value;
      BuildEntries(faker, n - 1);
      var d := faker(n - 1).value;
      BuildStep(faker, n - 1, cs, d);
      var cs' := cs + [Entry(d, NamesOf(cs))];
      forall i | 0 <= i < n
        ensures faker(i).Some? && cs'[i] == Entry(faker(i).value, NamesOf(cs'[..i]))
      {
        if i < n - 1 {
          assert cs'[..i] == cs[..i];
        } else {
          assert cs'[..i] == cs;
        }
      }
    }
  }

  /** No two entries of a successful build share a name. */
  lemma {:induction false} BuildDistinct(faker: nat -> Option<Draw>, n: nat)
    requires Build(faker, n).Some?
    ensures DistinctNames(Build(faker, n).value)
  {
    if n > 0 {
      var cs := Build(faker, n - 1).value;
      BuildDistinct(faker, n - 1);
      var c := Entry(faker(n - 1).value, NamesOf(cs));
      var cs' := cs + [c];
      assert Build(faker, n).value == cs';
      assert c.name !in NamesOf(cs);
      forall i, j | 0 <= i < j < |cs'| ensures cs'[i].name != cs'[j].name {
        assert cs'[i] == cs[i] && cs[i] in cs;
        if j < |cs| {
          assert cs'[j] == cs[j];
        }
      }
    }
  }

  /** A total preorder, the least a `localeCompare`-based comparator provides. */
  ghost predicate TotalPreorder(le: (string, string) -> bool) {
    && (forall a, b :: le(a, b) || le(b, a))
    && (forall a, b, c :: le(a, b) && le(b, c) ==> le(a, c))
  }

  predicate SortedByName(cs: seq<Category>, le: (string, string) -> bool) {
    forall i, j :: 0 <= i < j < |cs| ==> le(cs[i].name, cs[j].name)
  }

  /** Place `c` before the first entry it is not after. */
  function Insert(c: Category, cs: seq<Category>, le: (string, string) -> bool): (r: seq<Category>)
    ensures multiset(r) == multiset(cs) + multiset{c}
  {
    if cs == [] then [c]
    else if le(c.name, cs[0].name) then [c] + cs
    else
      assert cs == [cs[0]] + cs[1..];
      [cs[0]] + Insert(c, cs[1..], le)
  }

  /** `Array.prototype.sort` with a name comparator, as a stable insertion sort. */
  function SortByName(cs: seq<Category>, le: (string, string) -> bool): (r: seq<Category>)
    ensures multiset(r) == multiset(cs)
  {
    if cs == [] then []
    else
      assert cs == [cs[0]] + cs[1..];
      Insert(cs[0], SortByName(cs[1..], le), le)
  }

  /** The entries of `Insert(c, cs, le)` are `c` and those of `cs`. */
  lemma InsertMembers(c: Category, cs: seq<Category>, le: (string, string) -> bool, x: Category)
    requires x in Insert(c, cs, le)
    ensures x == c || x in cs
  {
    assert x in multiset(Insert(c, cs, le));
  }

  lemma {:induction false} InsertSorted(c: Category, cs: seq<Category>, le: (string, string) -> bool)
    requires TotalPreorder(le) && SortedByName(cs, le)
    ensures SortedByName(Insert(c, cs, le), le)
  {
    if cs != [] && !le(c.name, cs[0].name) {
      var rest := Insert(c, cs[1..], le);
      InsertSorted(c, cs[1..], le);
      var r := [cs[0]] + rest;
      forall i, j | 0 <= i < j < |r| ensures le(r[i].name, r[j].name) {
        if i == 0 {
          InsertMembers(c, cs[1..], le, r[j]);
        } else {
          assert r[i] == rest[i - 1] && r[j] == rest[j - 1];
        }
      }
    }
  }

  lemma {:induction false} SortByNameSorted(cs: seq<Category>, le: (string, string) -> bool)
    requires TotalPreorder(le)
    ensures SortedByName(SortByName(cs, le), le)
  {
    if cs != [] {
      SortByNameSorted(cs[1..], le);
      InsertSorted(cs[0], SortByName(cs[1..], le), le);
    }
  }

  lemma {:induction false} InsertDistinct(c: Category, cs: seq<Category>, le: (string, string) -> bool)
    requires DistinctNames(cs) && c.name !in NamesOf(cs)
    ensures DistinctNames(Insert(c, cs, le))
  {
    if cs == [] {
    } else if !le(c.name, cs[0].name) {
      var tail := cs[1..];
      var rest := Insert(c, tail, le);
      assert c.name !in NamesOf(tail) by {
        forall x | x in tail ensures x.name != c.name {
          assert x in cs;
        }
      }
      InsertDistinct(c, tail, le);
      var r := [cs[0]] + rest;
      forall i, j | 0 <= i < j < |r| ensures r[i].name != r[j].name {
        if i == 0 {
          InsertMembers(c, tail, le, r[j]);
          if r[j] != c {
            var k :| 0 <= k < |tail| && tail[k] == r[j];
            assert cs[k + 1] == r[j];
          } else {
            assert cs[0] in cs;
          }
        } else {
          assert r[i] == rest[i - 1] && r[j] == rest[j - 1];
        }
      }
    } else {
      var r := [c] + cs;
      forall i, j | 0 <= i < j < |r| ensures r[i].name != r[j].name {
        if i == 0 {
          assert r[j] in cs;
        } else {
          assert r[i] == cs[i - 1] && r[j] == cs[j - 1];
        }
      }
    }
  }

  lemma {:induction false} SortByNameDistinct(cs: seq<Category>, le: (string, string) -> bool)
    requires DistinctNames(cs)
    ensures DistinctNames(SortByName(cs, le))
  {
    if cs != [] {
      var tail := cs[1..];
      assert DistinctNames(tail) by {
        forall i, j | 0 <= i < j < |tail| ensures tail[i].name != tail[j].name {
          assert tail[i] == cs[i + 1] && tail[j] == cs[j + 1];
        }
      }
      SortByNameDistinct(tail, le);
      var sorted := SortByName(tail, le);
      assert cs[0].name !in NamesOf(sorted) by {
        forall x | x in sorted ensures x.name != cs[0].name {
          assert x in multiset(sorted);
          var k :| 0 <= k < |tail| && tail[k] == x;
          assert cs[k + 1] == x;
        }
      }
      InsertDistinct(cs[0], sorted, le);
    }
  }

  /** A successful build holds one entry per iteration. */
  lemma {:induction false} BuildLength(faker: nat -> Option<Draw>, n: nat)
    requires Build(faker, n).Some?
    ensures |Build(faker, n).value| == n
  {
    if n > 0 {
      BuildLength(faker, n - 1);
    }
  }

  /** `FAKE_CATEGORIES`: the sorted build, or `[]` when generation threw. */
  function FakeCatalog(faker: nat -> Option<Draw>, le: (string, string) -> bool): (r: seq<Category>)
    ensures |r| == 0 || |r| == CatalogSize
  {
    match Build(faker, CatalogSize)
    case None => []
    case Some(cs) =>
      BuildLength(faker, CatalogSize);
      var sorted := SortByName(cs, le);
      assert |multiset(sorted)| == |multiset(cs)|;
      sorted
  }

  /** The catalog is empty exactly when a faker call threw during generation; otherwise it has 100 entries. */
  lemma FakeCatalogSize(faker: nat -> Option<Draw>, le: (string, string) -> bool)
    ensures FakeCatalog(faker, le) == [] <==> exists i :: 0 <= i < CatalogSize && faker(i).None?
    ensures FakeCatalog(faker, le) != [] ==> |FakeCatalog(faker, le)| == CatalogSize
  {
    BuildFails(faker, CatalogSize);
    if Build(faker, CatalogSize).Some? {
      var cs := Build(faker, CatalogSize).value;
      BuildEntries(faker, CatalogSize);
      assert |SortByName(cs, le)| == |cs| by {
        assert |multiset(SortByName(cs, le))| == |multiset(cs)|;
      }
    }
  }

  /** A generated catalog has pairwise distinct names and is sorted by name. */
  lemma FakeCatalogSortedDistinct(faker: nat -> Option<Draw>, le: (string, string) -> bool)
    requires TotalPreorder(le)
    ensures DistinctNames(FakeCatalog(faker, le))
    ensures SortedByName(FakeCatalog(faker, le), le)
  {
    if Build(faker, CatalogSize).Some? {
      var cs := Build(faker, CatalogSize).value;
      BuildDistinct(faker, CatalogSize);
      SortByNameSorted(cs, le);
      SortByNameDistinct(cs, le);
    }
  }

  /** Every pushed entry has a product count in [10, 1000]. */
  lemma {:induction false} BuildCounts(faker: nat -> Option<Draw>, n: nat)
    requires Build(faker, n).Some?
    ensures forall c :: c in Build(faker, n).value ==> 10 <= c.productCount <= 1000
  {
    if n > 0 {
      BuildCounts(faker, n - 1);
      var cs := Build(faker, n - 1).value;
      var e := Entry(faker(n - 1).value, NamesOf(cs));
      assert Build(faker, n).value == cs + [e];
    }
  }

  /**
   * A generated catalog is a reordering of the entries the loop pushed (see
   * `BuildEntries`), so every product count lies in [10, 1000].
   */
  lemma FakeCatalogEntries(faker: nat -> Option<Draw>, le: (string, string) -> bool)
    ensures var catalog := FakeCatalog(faker, le);
      && (catalog != [] ==> multiset(catalog) == multiset(Build(faker, CatalogSize).value))
      && forall c :: c in catalog ==> 10 <= c.productCount <= 1000
  {
    if Build(faker, CatalogSize).Some? {
      var cs := Build(faker, CatalogSize).value;
      BuildCounts(faker, CatalogSize);
      forall c | c in SortByName(cs, le) ensures c in cs {
        assert c in multiset(SortByName(cs, le));
      }
    }
  }

  /** One more successful iteration appends the entry for the next draw. */
  lemma BuildStep(faker: nat -> Option<Draw>, n: nat, cs: seq<Category>, d: Draw)
    requires Build(faker, n) == Some(cs) && faker(n) == Some(d)
    ensures Build(faker, n + 1) == Some(cs + [Entry(d, NamesOf(cs))])
  {
  }

  lemma NamesOfAppend(cs: seq<Category>, c: Category)
    ensures NamesOf(cs + [c]) == NamesOf(cs) + {c.name}
  {
    assert forall x :: x in cs + [c] <==> x in cs || x == c;
  }

  /** `generateFakeCategories`: the two nested loops, then the sort. */
  method GenerateFakeCategories(faker: nat -> Option<Draw>, le: (string, string) -> bool)
    returns (catalog: seq<Category>)
    ensures catalog == FakeCatalog(faker, le)
  {
    var categories: seq<Category> := [];
    var uniqueNames: set<string> := {};
    while |categories| < CatalogSize
      invariant |categories| <= CatalogSize
      invariant Build(faker, |categories|) == Some(categories)
      invariant uniqueNames == NamesOf(categories)
    {
      var draw := faker(|categories|);
      if draw.None? {
        // a faker call threw: the catch block returns an empty catalog
        assert Build(faker, |categories| + 1) == None;
        BuildStaysFailed(faker, |categories| + 1, CatalogSize);
        return [];
      }
      var candidateName := PickUniqueName(draw.value.baseName, uniqueNames);
      uniqueNames := uniqueNames + {candidateName};
      var category := Category(draw.value.id, candidateName, draw.value.productCount, draw.value.createdAt);
      BuildStep(faker, |categories|, categories, draw.value);
      NamesOfAppend(categories, category);
      categories := categories + [category];
    }
    catalog := SortByName(categories, le);
  }
}
