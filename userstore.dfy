/**
 * The user records as the category controller sees them: an in-memory stand-in
 * for the `User` collection, reduced to each user's stored category names.
 */
module UserStore {
  import opened Wrappers

  type UserId = string

  class Users {
    /** user id -> the user's `categories` field */
    var categories: map<UserId, seq<string>>

    constructor (initial: map<UserId, seq<string>>)
      ensures categories == initial
    {
      categories := initial;
    }

    /** `User.findById(id).select("categories")`: the stored names, or `None` for an unknown id. */
    method FindById(id: UserId) returns (found: Option<seq<string>>)
      ensures found.Some? <==> id in categories
      ensures found.Some? ==> found.value == categories[id]
    {
      if id in categories {
        found := Some(categories[id]);
      } else {
        found := None;
      }
    }

    /**
     * `User.findByIdAndUpdate(id, { categories: names }, { new: true })`: the
     * user's list is overwritten (not merged), every other user is untouched, and
     * the updated list comes back; an unknown id changes nothing and gives `None`.
     */
    method FindByIdAndUpdate(id: UserId, names: seq<string>) returns (updated: Option<seq<string>>)
      modifies this
      ensures updated.Some? <==> id in old(categories)
      ensures id in old(categories) ==> categories == old(categories)[id := names] && updated.value == names
      ensures id !in old(categories) ==> categories == old(categories)
    {
      if id in categories {
        categories := categories[id := names];
        updated := Some(names);
      } else {
        updated := None;
      }
    }
  }
}
