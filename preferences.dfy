/**
 * `updateUserCategories`: validate the submitted names against the catalog and
 * overwrite the user's stored list with the ones that survive.
 */
module Preferences {
  import opened Wrappers
  import opened Catalog
  import UserStore

  /** An element of the submitted array; only a string can be `===` to a catalog name. */
  datatype JsValue = JsString(s: string) | JsOther

  /** `req.body.categories`: an array, or anything else (missing, a string, an object, ...). */
  datatype Body = CategoriesArray(items: seq<JsValue>) | CategoriesNotArray

  datatype UpdateResponse = Unauthorized | InvalidCategories | UserNotFound | Updated(categories: seq<string>)

  /** The HTTP status each outcome is sent with. */
  function StatusCode(r: UpdateResponse): (code: int)
    ensures code == 200 <==> r.Updated?
    ensures 400 <= code < 500 <==> !r.Updated?
  {
    match r
    case Unauthorized => 401
    case InvalidCategories => 400
    case UserNotFound => 404
    case Updated(_) => 200
  }

  /** `FAKE_CATEGORIES.some((fakeCategory) => fakeCategory.name === name)` */
  predicate InCatalog(catalog: seq<Category>, name: string)
    ensures InCatalog(catalog, name) <==> name in NamesOf(catalog)
  {
    exists i :: 0 <= i < |catalog| && catalog[i].name == name
  }

  /** `categories.filter(...)`: the submitted strings that name a catalog entry, in order, duplicates kept. */
  function ValidCategories(items: seq<JsValue>, catalog: seq<Category>): (r: seq<string>)
    ensures |r| <= |items|
    ensures forall i :: 0 <= i < |r| ==> InCatalog(catalog, r[i])
  {
    if items == [] then []
    else
      var rest := ValidCategories(items[1..], catalog);
      match items[0]
      case JsString(s) => if InCatalog(catalog, s) then [s] + rest else rest
      case JsOther => rest
  }

  /** `r` is `items` with some elements left out, the kept ones strings in the same order. */
  ghost predicate IsSubsequence(r: seq<string>, items: seq<JsValue>)
    decreases items
  {
    if r == [] then true
    else if items == [] then false
    else (items[0] == JsString(r[0]) && IsSubsequence(r[1..], items[1..])) || IsSubsequence(r, items[1..])
  }

  /** The validated list is the input with some elements left out, order kept. */
  lemma {:induction false} ValidCategoriesSubsequence(items: seq<JsValue>, catalog: seq<Category>)
    ensures IsSubsequence(ValidCategories(items, catalog), items)
  {
    if items != [] {
      ValidCategoriesSubsequence(items[1..], catalog);
    }
  }

  /**
   * The validated list holds each catalog name exactly as often as it was
   * submitted, and nothing else: unknown names and non-strings are dropped.
   */
  lemma {:induction false} ValidCategoriesCounts(items: seq<JsValue>, catalog: seq<Category>)
    ensures forall x :: multiset(ValidCategories(items, catalog))[x]
                        == if InCatalog(catalog, x) then multiset(items)[JsString(x)] else 0
  {
    if items != [] {
      ValidCategoriesCounts(items[1..], catalog);
      assert items == [items[0]] + items[1..];
      assert multiset(items) == multiset{items[0]} + multiset(items[1..]);
    }
  }

  /** Submitted strings as the array elements a client sends. */
  function AsJsValues(names: seq<string>): (vs: seq<JsValue>)
    ensures |vs| == |names|
    ensures forall i :: 0 <= i < |names| ==> vs[i] == JsString(names[i])
  {
    if names == [] then [] else [JsString(names[0])] + AsJsValues(names[1..])
  }

  /** A list of catalog names passes validation unchanged. */
  lemma {:induction false} ValidCategoriesKeepsCatalogNames(names: seq<string>, catalog: seq<Category>)
    requires forall i :: 0 <= i < |names| ==> InCatalog(catalog, names[i])
    ensures ValidCategories(AsJsValues(names), catalog) == names
  {
    if names != [] {
      var vs := AsJsValues(names);
      assert vs[1..] == AsJsValues(names[1..]);
      ValidCategoriesKeepsCatalogNames(names[1..], catalog);
    }
  }

  /** Validating an already validated list changes nothing, so resubmitting the stored list is a no-op. */
  lemma ValidCategoriesIdempotent(items: seq<JsValue>, catalog: seq<Category>)
    ensures var r := ValidCategories(items, catalog);
      ValidCategories(AsJsValues(r), catalog) == r
  {
    var r := ValidCategories(items, catalog);
    ValidCategoriesCounts(items, catalog);
    forall i | 0 <= i < |r| ensures InCatalog(catalog, r[i]) {
      assert multiset(r)[r[i]] > 0;
    }
    ValidCategoriesKeepsCatalogNames(r, catalog);
  }

  /** Submitting one catalog name and one unknown name stores only the catalog name. */
  lemma UnknownNameDropped(catalog: seq<Category>, known: string, unknown: string)
    requires InCatalog(catalog, known) && !InCatalog(catalog, unknown)
    ensures ValidCategories([JsString(known), JsString(unknown)], catalog) == [known]
  {
    var items := [JsString(known), JsString(unknown)];
    assert items[1..] == [JsString(unknown)];
    assert items[1..][1..] == [];
    assert ValidCategories(items[1..], catalog) == [];
  }

  /**
   * The `updateUserCategories` handler. A missing user id answers 401 before
   * anything else; a non-array body answers 400; otherwise the user's stored
   * list is replaced by the validated one, or 404 if the user does not exist.
   * Only the 200 outcome writes, and only the caller's entry.
   */
  method UpdateUserCategories(users: UserStore.Users, userId: Option<UserStore.UserId>, body: Body, catalog: seq<Category>)
    returns (response: UpdateResponse)
    modifies users
    ensures userId.None? ==> response == Unauthorized && users.categories == old(users.categories)
    ensures userId.Some? && body.CategoriesNotArray? ==>
      response == InvalidCategories && users.categories == old(users.categories)
    ensures userId.Some? && body.CategoriesArray? && userId.value !in old(users.categories) ==>
      response == UserNotFound && users.categories == old(users.categories)
    ensures userId.Some? && body.CategoriesArray? && userId.value in old(users.categories) ==>
      var validCategories := ValidCategories(body.items, catalog);
      && response == Updated(validCategories)
      && users.categories == old(users.categories)[userId.value := validCategories]
    ensures StatusCode(response) ==
      if userId.None? then 401
      else if body.CategoriesNotArray? then 400
      else if userId.value !in old(users.categories) then 404
      else 200
  {
    if userId.None? {
      return Unauthorized;
    }
    if body.CategoriesNotArray? {
      return InvalidCategories;
    }
    var validCategories := ValidCategories(body.items, catalog);
    var user := users.FindByIdAndUpdate(userId.value, validCategories);
    if user.None? {
      return UserNotFound;
    }
    response := Updated(user.value);
  }
}
