/**
 * The bookmarks page: removing a bookmark by id, the pluralised count in the
 * header, and the empty-state panel.
 */
module BookmarksPage {
  import opened Lists
  import opened Employees
  import opened HRContext

  /** `handleRemove(id)`: filter the rendered list and store the result with `setBookmarks`. */
  method HandleRemove(provider: HRProvider, id: int)
    modifies provider`bookmarks
    ensures provider.bookmarks == Removed(old(provider.bookmarks), id)
    ensures !provider.IsBookmarked(id)
    ensures IsSubsequence(provider.bookmarks, old(provider.bookmarks))
    ensures !old(provider.IsBookmarked(id)) ==> provider.bookmarks == old(provider.bookmarks)
  {
    var updated := Removed(provider.bookmarks, id);
    provider.SetBookmarks(updated);
  }

  /** The header noun: "employee", with an "s" unless the count is exactly 1. */
  function EmployeeNoun(count: int): (noun: string)
    ensures |noun| >= 8 && noun[..8] == "employee"
    ensures |noun| == 9 <==> count != 1
    ensures |noun| == 8 <==> count == 1
    ensures |noun| == 9 ==> noun[8] == 's'
  {
    "employee" + (if count != 1 then "s" else "")
  }

  /** The empty-state panel replaces the grid exactly when there are no bookmarks. */
  function ShowsEmptyState(bookmarks: seq<Bookmark>): (shown: bool)
    ensures shown <==> forall id :: !HasId(bookmarks, id)
  {
    if |bookmarks| == 0 then true
    else
      assert HasId(bookmarks, bookmarks[0].employee.id);
      false
  }

  /** Removing the only bookmark leaves the page on its empty state, with the singular noun before. */
  lemma RemovingLastShowsEmptyState(b: Bookmark)
    ensures EmployeeNoun(|[b]|) == "employee"
    ensures ShowsEmptyState(Removed([b], b.employee.id))
  {
  }
}
