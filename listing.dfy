/**
 * `getCategories`: one page of the catalog, each entry marked with whether the
 * user has selected it, plus the page metadata.
 */
module Listing {
  import opened Wrappers
  import JsRuntime
  import opened Catalog
  import UserStore

  /** Items per page (`limit`). */
  const PageSize: int := 6

  /** A catalog entry as returned to the client: the category with its `selected` flag. */
  datatype Listed = Listed(id: string, name: string, productCount: int, createdAt: int, selected: bool)

  datatype PageResponse = PageResponse(
    categories: seq<Listed>,
    currentPage: int,
    totalPages: int,
    totalCategories: nat,
    hasMore: bool,
    selectedCategories: seq<string>)

  /** `parseInt(req.query.page) || 1`: `NaN` and `0` both fall back to page 1. */
  function PageNumber(query: JsRuntime.QueryValue): (page: int)
    ensures page != 0
  {
    match JsRuntime.ParseInt(JsRuntime.ToJsString(query))
    case Some(v) => if v != 0 then v else 1
    case None => 1
  }

  /** A positive page number written in decimal is read back as itself. */
  lemma PageNumberDecimal(n: nat)
    requires n >= 1
    ensures PageNumber(JsRuntime.Text(JsRuntime.Decimal(n))) == n
  {
    JsRuntime.ParseIntDecimal(n);
  }

  /** A missing `page`, or one given as an object, gives page 1. */
  lemma PageNumberMissing()
    ensures PageNumber(JsRuntime.Absent) == 1
    ensures PageNumber(JsRuntime.Nested) == 1
  {
    JsRuntime.ParseIntNoDigits("undefined");
    JsRuntime.ParseIntNoDigits("[object Object]");
  }

  /** `page=0` gives page 1, since 0 is falsy. */
  lemma PageNumberZero()
    ensures PageNumber(JsRuntime.Text("0")) == 1
  {
    JsRuntime.ParseIntDecimal(0);
    assert JsRuntime.Decimal(0) == "0";
  }

  /**
   * A `page` from which `parseInt` reads no number gives page 1: empty text, or
   * text that after leading white space and one sign has no digit (`"abc"`,
   * `" -x"`, `"0x"`, `"0xg"`, ...).
   */
  lemma PageNumberNonNumeric(s: string)
    requires JsRuntime.NoLeadingNumber(JsRuntime.Unsigned(s))
    ensures PageNumber(JsRuntime.Text(s)) == 1
  {
  }

  /**
   * A repeated `page` (`?page=3&page=5`) arrives as an array, which `String`
   * joins with commas; `parseInt` stops at the first comma, so the first value wins.
   */
  lemma PageNumberRepeated(n: nat, rest: seq<string>)
    requires n >= 1
    ensures PageNumber(JsRuntime.Repeated([JsRuntime.Decimal(n)] + rest)) == n
  {
    var first := JsRuntime.Decimal(n);
    var xs := [first] + rest;
    var s := JsRuntime.Join(xs);
    var tail := s[|first|..];
    assert s == first + tail;
    assert |tail| > 0 ==> tail[0] == ',';
    JsRuntime.ParseIntLeadingDecimal(n, tail);
  }

  /** `{ ...cat, selected: userCategories.includes(cat.name) }` */
  function WithSelection(c: Category, userCategories: seq<string>): (l: Listed)
    ensures l.id == c.id && l.name == c.name && l.productCount == c.productCount && l.createdAt == c.createdAt
    ensures l.selected <==> c.name in userCategories
  {
    Listed(c.id, c.name, c.productCount, c.createdAt, c.name in userCategories)
  }

  /** `Math.ceil(total / limit)` for a positive limit. */
  function CeilDiv(total: nat, limit: int): (q: nat)
    requires limit > 0
    ensures limit * (q - 1) < total <= limit * q
  {
    (total + limit - 1) / limit
  }

  /** The response of `getCategories` for a given page and the user's stored names. */
  function ListPage(catalog: seq<Category>, page: int, userCategories: seq<string>): (r: PageResponse)
    ensures |r.categories| <= PageSize
    ensures r.currentPage == page && r.totalCategories == |catalog| && r.selectedCategories == userCategories
    ensures PageSize * (r.totalPages - 1) < |catalog| <= PageSize * r.totalPages
  {
    var skip := (page - 1) * PageSize;
    var total := |catalog|;
    var categoriesWithSelection := seq(total, i requires 0 <= i < total => WithSelection(catalog[i], userCategories));
    PageResponse(
      JsRuntime.Slice(categoriesWithSelection, skip, skip + PageSize),
      page,
      CeilDiv(total, PageSize),
      total,
      skip + PageSize < total,
      userCategories)
  }

  /**
   * For a page of 1 or more, the items are the contiguous run of the catalog
   * starting at (page-1)*6, at most 6 of them and none past the end; each is its
   * catalog entry unchanged except for `selected`, which holds exactly when the
   * name is among the user's stored names; the stored names come back whole.
   */
  lemma PageContents(catalog: seq<Category>, page: int, userCategories: seq<string>)
    requires page >= 1
    ensures var r := ListPage(catalog, page, userCategories);
      var skip := (page - 1) * PageSize;
      && |r.categories| == (if skip < |catalog| then (if skip + PageSize < |catalog| then PageSize else |catalog| - skip) else 0)
      && (forall i :: 0 <= i < |r.categories| ==>
            var c := catalog[skip + i];
            && r.categories[i].id == c.id
            && r.categories[i].name == c.name
            && r.categories[i].productCount == c.productCount
            && r.categories[i].createdAt == c.createdAt
            && (r.categories[i].selected <==> c.name in userCategories))
      && r.currentPage == page
      && r.totalCategories == |catalog|
      && r.selectedCategories == userCategories
  {
    var skip := (page - 1) * PageSize;
    var total := |catalog|;
    var all := seq(total, i requires 0 <= i < total => WithSelection(catalog[i], userCategories));
    JsRuntime.SliceNonNegative(all, skip, skip + PageSize);
  }

  /** `hasMore` holds exactly when some catalog entry lies beyond the returned items. */
  lemma HasMoreMeansEntriesBeyond(catalog: seq<Category>, page: int, userCategories: seq<string>)
    requires page >= 1
    ensures var r := ListPage(catalog, page, userCategories);
      r.hasMore <==> (page - 1) * PageSize + |r.categories| < |catalog|
  {
    PageContents(catalog, page, userCategories);
  }

  /** `totalPages` is the least number of 6-item pages that hold the whole catalog. */
  lemma TotalPagesCoverCatalog(catalog: seq<Category>, page: int, userCategories: seq<string>)
    ensures var r := ListPage(catalog, page, userCategories);
      && r.totalPages >= 0
      && PageSize * r.totalPages >= |catalog|
      && PageSize * (r.totalPages - 1) < |catalog|
  {
  }

  /** With the 100-entry catalog there are 17 pages; page 17 holds the last 4 entries and `hasMore` is false. */
  lemma LastPageOfFullCatalog(catalog: seq<Category>, userCategories: seq<string>)
    requires |catalog| == CatalogSize
    ensures var r := ListPage(catalog, 17, userCategories);
      && r.totalPages == 17
      && |r.categories| == 4
      && r.categories[0].name == catalog[96].name
      && !r.hasMore
  {
    PageContents(catalog, 17, userCategories);
  }

  /**
   * The page number is not clamped: page -1 makes `slice` count back from the
   * end, so with 100 entries it returns entries 88 to 93 and `hasMore` is true.
   */
  lemma NegativePageCountsFromEnd(catalog: seq<Category>, userCategories: seq<string>)
    requires |catalog| == CatalogSize
    ensures var r := ListPage(catalog, -1, userCategories);
      && |r.categories| == 6
      && (forall i :: 0 <= i < 6 ==> r.categories[i] == WithSelection(catalog[88 + i], userCategories))
      && r.hasMore
  {
  }

  /**
   * Every page number below 1 that `PageNumber` can produce is -1 or less, and for
   * all of them the offset is not clamped: `slice` counts both bounds back from the
   * end, giving the entries from max(0, total+skip) up to max(0, total+skip+6), and
   * `hasMore` is always true, even for an empty catalog.
   */
  lemma NegativePagesCountFromEnd(catalog: seq<Category>, page: int, userCategories: seq<string>)
    requires page <= -1
    ensures var r := ListPage(catalog, page, userCategories);
      var skip := (page - 1) * PageSize;
      var from := if |catalog| + skip < 0 then 0 else |catalog| + skip;
      var to := if |catalog| + skip + PageSize < 0 then 0 else |catalog| + skip + PageSize;
      && |r.categories| == to - from
      && (forall i :: 0 <= i < |r.categories| ==> r.categories[i] == WithSelection(catalog[from + i], userCategories))
      && r.hasMore
  {
    var skip := (page - 1) * PageSize;
    assert skip + PageSize <= -PageSize;
    var total := |catalog|;
    var all := seq(total, i requires 0 <= i < total => WithSelection(catalog[i], userCategories));
    var from := JsRuntime.RelativeIndex(skip, total);
    var to := JsRuntime.RelativeIndex(skip + PageSize, total);
    assert from == if total + skip < 0 then 0 else total + skip;
    assert to == if total + skip + PageSize < 0 then 0 else total + skip + PageSize;
    assert JsRuntime.Slice(all, skip, skip + PageSize) == if from < to then all[from..to] else [];
  }

  /** A user with no stored names sees every item unselected. */
  lemma NothingSelectedForEmptyPreferences(catalog: seq<Category>, page: int)
    ensures forall item :: item in ListPage(catalog, page, []).categories ==> !item.selected
  {
  }

  /**
   * The `getCategories` handler: look the user up, fall back to no stored names
   * when the record is missing (`user?.categories || []`), and answer with the page.
   */
  method GetCategories(users: UserStore.Users, catalog: seq<Category>, query: JsRuntime.QueryValue, userId: UserStore.UserId)
    returns (response: PageResponse)
    ensures response == ListPage(catalog, PageNumber(query), if userId in users.categories then users.categories[userId] else [])
  {
    var page := PageNumber(query);
    var user := users.FindById(userId);
    var userCategories := user.GetOr([]);
    response := ListPage(catalog, page, userCategories);
  }
}
