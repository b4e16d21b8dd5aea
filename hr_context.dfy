/**
 * The HR provider: the bookmark collection every page shares, the
 * normalisation applied when it is read back from browser storage, and the
 * dark/light theme decision.
 *
 * The state updaters (`some`, `filter`, spread-append) are pure functions on
 * sequences; the provider itself is a class whose methods replace its
 * `bookmarks`, `darkMode` and `isLoading` fields.
 */
module HRContext {
  import opened Employees
  import opened Lists

  /**
   * A bookmarked record: the employee spread into a new object together with
   * the wall-clock `bookmarkedAt` stamp, which the model keeps as an opaque
   * string supplied by the caller.
   */
  datatype Bookmark = Bookmark(employee: Employee, bookmarkedAt: string)

  /** `bookmarks.some(b => b.id === id)`, scanning from the front. */
  predicate HasId(bs: seq<Bookmark>, id: int)
    ensures HasId(bs, id) <==> exists k :: 0 <= k < |bs| && bs[k].employee.id == id
  {
    bs != [] && (bs[0].employee.id == id || HasId(bs[1..], id))
  }

  /** The store's invariant: each employee id appears at most once. */
  predicate UniqueIds(bs: seq<Bookmark>) {
    forall i, j :: 0 <= i < j < |bs| ==> bs[i].employee.id != bs[j].employee.id
  }

  /** The `addBookmark` updater: append a stamped copy only when the id is absent. */
  function Added(bs: seq<Bookmark>, item: Employee, now: string): (r: seq<Bookmark>)
    ensures HasId(r, item.id)
    ensures forall id :: HasId(r, id) <==> HasId(bs, id) || id == item.id
    ensures r == bs <==> HasId(bs, item.id)
    ensures |bs| <= |r| <= |bs| + 1 && r[..|bs|] == bs
    ensures !HasId(bs, item.id) ==> |r| == |bs| + 1 && r[|bs|] == Bookmark(item, now)
  {
    if HasId(bs, item.id) then bs
    else
      var r := bs + [Bookmark(item, now)];
      HasIdAppend(bs, Bookmark(item, now));
      assert r[..|bs|] == bs;
      r
  }

  /** Membership after appending one entry. */
  lemma HasIdAppend(bs: seq<Bookmark>, x: Bookmark)
    ensures forall j :: HasId(bs + [x], j) <==> HasId(bs, j) || x.employee.id == j
  {
    var r := bs + [x];
    assert r[|bs|] == x;
    forall j | HasId(r, j)
      ensures HasId(bs, j) || x.employee.id == j
    {
      var k :| 0 <= k < |r| && r[k].employee.id == j;
      if k < |bs| {
        assert bs[k] == r[k];
      }
    }
    forall j | HasId(bs, j)
      ensures HasId(r, j)
    {
      var k :| 0 <= k < |bs| && bs[k].employee.id == j;
      assert r[k] == bs[k];
    }
  }

  /** The predicate handed to `filter` by the remove operations: keep entries whose id differs. */
  function OtherThan(id: int): Bookmark -> bool {
    (b: Bookmark) => b.employee.id != id
  }

  /** The `removeBookmark` updater: `prev.filter(b => b.id !== id)`. */
  function Removed(bs: seq<Bookmark>, id: int): (r: seq<Bookmark>)
    ensures !HasId(r, id)
    ensures forall j :: HasId(r, j) <==> HasId(bs, j) && j != id
    ensures IsSubsequence(r, bs)
    ensures forall k :: 0 <= k < |bs| && bs[k].employee.id != id ==> bs[k] in r
    ensures forall b :: multiset(r)[b] == if b.employee.id != id then multiset(bs)[b] else 0
    ensures !HasId(bs, id) ==> r == bs
  {
    var r := Filter(bs, OtherThan(id));
    FilterIsSubsequence(bs, OtherThan(id));
    FilterCounts(bs, OtherThan(id));
    if !HasId(bs, id) then
      FilterKeepsAll(bs, OtherThan(id));
      r
    else
      r
  }

  /** The `toggleBookmark` decision: remove when present, add when absent. */
  function Toggled(bs: seq<Bookmark>, item: Employee, now: string): (r: seq<Bookmark>)
    ensures HasId(r, item.id) <==> !HasId(bs, item.id)
    ensures forall j :: j != item.id ==> (HasId(r, j) <==> HasId(bs, j))
  {
    if HasId(bs, item.id) then Removed(bs, item.id) else Added(bs, item, now)
  }

  /** Adding an id that is already present changes nothing, so repeated adds are idempotent. */
  lemma AddIdempotent(bs: seq<Bookmark>, item: Employee, now: string, later: string)
    ensures Added(Added(bs, item, now), item, later) == Added(bs, item, now)
  {
  }

  /** Adding keeps the ids unique. */
  lemma AddKeepsUniqueIds(bs: seq<Bookmark>, item: Employee, now: string)
    requires UniqueIds(bs)
    ensures UniqueIds(Added(bs, item, now))
  {
  }

  /** Entries of a subsequence are entries of the whole. */
  lemma {:induction false} SubsequenceMembers(a: seq<Bookmark>, b: seq<Bookmark>)
    requires IsSubsequence(a, b)
    ensures forall x :: x in a ==> x in b
    decreases |b|
  {
    if a != [] {
      if a[0] == b[0] && IsSubsequence(a[1..], b[1..]) {
        SubsequenceMembers(a[1..], b[1..]);
        assert forall x :: x in a ==> x == a[0] || x in a[1..];
      } else {
        SubsequenceMembers(a, b[1..]);
      }
    }
  }

  /** Deleting entries cannot create a duplicate id. */
  lemma {:induction false} SubsequenceKeepsUniqueIds(a: seq<Bookmark>, b: seq<Bookmark>)
    requires UniqueIds(b) && IsSubsequence(a, b)
    ensures UniqueIds(a)
    decreases |b|
  {
    if a != [] {
      if a[0] == b[0] && IsSubsequence(a[1..], b[1..]) {
        SubsequenceKeepsUniqueIds(a[1..], b[1..]);
        SubsequenceMembers(a[1..], b[1..]);
        forall j | 0 < j < |a|
          ensures a[0].employee.id != a[j].employee.id
        {
          assert a[j] == a[1..][j - 1];
          assert a[j] in b[1..];
          var k :| 0 <= k < |b[1..]| && b[1..][k] == a[j];
          assert b[k + 1] == a[j];
        }
        forall i, j | 0 <= i < j < |a|
          ensures a[i].employee.id != a[j].employee.id
        {
          if i > 0 {
            assert a[i] == a[1..][i - 1] && a[j] == a[1..][j - 1];
          }
        }
      } else {
        SubsequenceKeepsUniqueIds(a, b[1..]);
      }
    }
  }

  /** Removing keeps the ids unique. */
  lemma RemoveKeepsUniqueIds(bs: seq<Bookmark>, id: int)
    requires UniqueIds(bs)
    ensures UniqueIds(Removed(bs, id))
  {
    SubsequenceKeepsUniqueIds(Removed(bs, id), bs);
  }

  /** Toggling keeps the ids unique. */
  lemma ToggleKeepsUniqueIds(bs: seq<Bookmark>, item: Employee, now: string)
    requires UniqueIds(bs)
    ensures UniqueIds(Toggled(bs, item, now))
  {
    if HasId(bs, item.id) {
      RemoveKeepsUniqueIds(bs, item.id);
    }
  }

  /** Two toggles of the same record restore the membership of every id. */
  lemma ToggleTwiceRestoresMembership(bs: seq<Bookmark>, item: Employee, now: string, later: string)
    ensures forall j :: HasId(Toggled(Toggled(bs, item, now), item, later), j) <==> HasId(bs, j)
  {
  }

  /** Toggling an absent record twice gives back exactly the original list. */
  lemma ToggleTwiceFromAbsent(bs: seq<Bookmark>, item: Employee, now: string, later: string)
    requires !HasId(bs, item.id)
    ensures Toggled(Toggled(bs, item, now), item, later) == bs
  {
    var x := Bookmark(item, now);
    assert Toggled(bs, item, now) == bs + [x];
    FilterAppend(bs, [x], OtherThan(item.id));
    FilterKeepsAll(bs, OtherThan(item.id));
    assert Filter([x], OtherThan(item.id)) == [];
  }

  /** The store's operations, as the user interface issues them. */
  datatype Action =
    | Add(item: Employee, at: string)
    | Remove(id: int)
    | Toggle(item: Employee, at: string)

  function Apply(bs: seq<Bookmark>, a: Action): seq<Bookmark> {
    match a
    case Add(item, at) => Added(bs, item, at)
    case Remove(id) => Removed(bs, id)
    case Toggle(item, at) => Toggled(bs, item, at)
  }

  function Replay(bs: seq<Bookmark>, actions: seq<Action>): seq<Bookmark>
    decreases |actions|
  {
    if actions == [] then bs else Replay(Apply(bs, actions[0]), actions[1..])
  }

  /** Reference semantics: whether `id` is bookmarked, tracked as a single bit. */
  function MembershipAfter(was: bool, a: Action, id: int): bool {
    match a
    case Add(item, _) => was || item.id == id
    case Remove(j) => was && j != id
    case Toggle(item, _) => if item.id == id then !was else was
  }

  function NetMembership(was: bool, actions: seq<Action>, id: int): bool
    decreases |actions|
  {
    if actions == [] then was else NetMembership(MembershipAfter(was, actions[0], id), actions[1..], id)
  }

  /** After any run of add/remove/toggle, `isBookmarked(id)` is exactly the net effect on `id`. */
  lemma {:induction false} ReplayMembership(bs: seq<Bookmark>, actions: seq<Action>, id: int)
    ensures HasId(Replay(bs, actions), id) == NetMembership(HasId(bs, id), actions, id)
    decreases |actions|
  {
    if actions != [] {
      ReplayMembership(Apply(bs, actions[0]), actions[1..], id);
    }
  }

  /** Any run of add/remove/toggle keeps the ids unique. */
  lemma {:induction false} ReplayKeepsUniqueIds(bs: seq<Bookmark>, actions: seq<Action>)
    requires UniqueIds(bs)
    ensures UniqueIds(Replay(bs, actions))
    decreases |actions|
  {
    if actions != [] {
      match actions[0] {
        case Add(item, at) => AddKeepsUniqueIds(bs, item, at);
        case Remove(id) => RemoveKeepsUniqueIds(bs, id);
        case Toggle(item, at) => ToggleKeepsUniqueIds(bs, item, at);
      }
      ReplayKeepsUniqueIds(Apply(bs, actions[0]), actions[1..]);
    }
  }

  /** Empty store, add id 7, add id 7 again, remove 7: one entry, still one, then none. */
  lemma AddAddRemoveScenario(e: Employee, now: string, later: string)
    requires e.id == 7
    ensures |Added([], e, now)| == 1
    ensures |Added(Added([], e, now), e, later)| == 1
    ensures Removed(Added(Added([], e, now), e, later), 7) == []
  {
  }

  /**
   * What `localStorage.getItem("hr-bookmarks")` held, classified by what
   * `JSON.parse` makes of it.
   */
  datatype StoredValue =
    | Missing                          // getItem returned null
    | EmptyText                        // the empty string, falsy like null
    | Unparsable                       // reading or parsing threw
    | NonArray                         // parsed to an object, number, null, ...
    | ArrayOf(items: seq<Bookmark>)    // parsed to an array

  /** The bookmark list after the load step, given the list before it. */
  function LoadedBookmarks(current: seq<Bookmark>, stored: StoredValue): (r: seq<Bookmark>)
    ensures stored.ArrayOf? ==> r == stored.items
    ensures stored.Unparsable? || stored.NonArray? ==> r == []
    ensures stored.Missing? || stored.EmptyText? ==> r == current
  {
    match stored
    case Missing => current
    case EmptyText => current
    case Unparsable => []
    case NonArray => []
    case ArrayOf(items) => items
  }

  /** `JSON.stringify(bookmarks)`: the save step always writes an array. */
  function Persisted(bs: seq<Bookmark>): (v: StoredValue)
    ensures v.ArrayOf?
  {
    ArrayOf(bs)
  }

  /** Saving and loading again reproduces the list, entries and order. */
  lemma PersistRoundTrip(current: seq<Bookmark>, bs: seq<Bookmark>)
    ensures LoadedBookmarks(current, Persisted(bs)) == bs
  {
  }

  /** What `localStorage.getItem("hr-theme")` gave, or that reading storage threw. */
  datatype SavedTheme =
    | Unreadable
    | NotSaved
    | Saved(value: string)

  /** `!savedTheme`: null and the empty string are both falsy. */
  predicate NoThemeSaved(saved: SavedTheme) {
    saved.NotSaved? || saved == Saved("")
  }

  /** The initial theme: dark when "dark" is saved, or nothing is saved and the system prefers dark. */
  function InitialDarkMode(saved: SavedTheme, systemPrefersDark: bool): (dark: bool)
    ensures dark <==> saved == Saved("dark") || (NoThemeSaved(saved) && systemPrefersDark)
  {
    match saved
    case Unreadable => false
    case NotSaved => systemPrefersDark
    case Saved(v) => v == "dark" || (v == "" && systemPrefersDark)
  }

  /** A saved non-empty theme decides alone; the system preference is ignored. */
  lemma SavedThemeOverridesSystem(v: string)
    requires v != ""
    ensures InitialDarkMode(Saved(v), true) == InitialDarkMode(Saved(v), false) == (v == "dark")
  {
  }

  /** The system-theme listener: follow the system only while no theme is saved. */
  function DarkModeAfterSystemChange(current: bool, saved: SavedTheme, matches: bool): (dark: bool)
    ensures NoThemeSaved(saved) ==> dark == matches
    ensures !NoThemeSaved(saved) ==> dark == current
  {
    if saved.NotSaved? || (saved.Saved? && saved.value == "") then matches else current
  }

  /** The provider's state: the shared bookmark list and the theme flags. */
  class HRProvider {
    var bookmarks: seq<Bookmark>
    var darkMode: bool
    var isLoading: bool

    constructor ()
      ensures bookmarks == [] && !darkMode && isLoading
    {
      bookmarks := [];
      darkMode := false;
      isLoading := true;
    }

    /** `isBookmarked(id)`: reads the list, changes nothing. */
    function IsBookmarked(id: int): (r: bool)
      reads this
      ensures r <==> exists b :: b in bookmarks && b.employee.id == id
    {
      HasId(bookmarks, id)
    }

    method AddBookmark(item: Employee, now: string)
      modifies this`bookmarks
      ensures bookmarks == Added(old(bookmarks), item, now)
      ensures UniqueIds(old(bookmarks)) ==> UniqueIds(bookmarks)
    {
      if UniqueIds(bookmarks) {
        AddKeepsUniqueIds(bookmarks, item, now);
      }
      bookmarks := Added(bookmarks, item, now);
    }

    method RemoveBookmark(id: int)
      modifies this`bookmarks
      ensures bookmarks == Removed(old(bookmarks), id)
      ensures UniqueIds(old(bookmarks)) ==> UniqueIds(bookmarks)
    {
      if UniqueIds(bookmarks) {
        RemoveKeepsUniqueIds(bookmarks, id);
      }
      bookmarks := Removed(bookmarks, id);
    }

    method ToggleBookmark(item: Employee, now: string)
      modifies this`bookmarks
      ensures bookmarks == Toggled(old(bookmarks), item, now)
      ensures IsBookmarked(item.id) <==> !old(IsBookmarked(item.id))
      ensures UniqueIds(old(bookmarks)) ==> UniqueIds(bookmarks)
    {
      if IsBookmarked(item.id) {
        RemoveBookmark(item.id);
      } else {
        AddBookmark(item, now);
      }
    }

    /** `setBookmarks`, which the provider also hands to the pages. */
    method SetBookmarks(bs: seq<Bookmark>)
      modifies this`bookmarks
      ensures bookmarks == bs
    {
      bookmarks := bs;
    }

    /** The mount-time load of the persisted list. */
    method LoadBookmarks(stored: StoredValue)
      modifies this`bookmarks
      ensures bookmarks == LoadedBookmarks(old(bookmarks), stored)
    {
      match stored
      case Missing =>
      case EmptyText =>
      case Unparsable => bookmarks := [];
      case NonArray => bookmarks := [];
      case ArrayOf(items) => bookmarks := items;
    }

    /** The mount-time theme decision; loading ends whatever it decided. */
    method InitializeTheme(saved: SavedTheme, systemPrefersDark: bool)
      modifies this`darkMode, this`isLoading
      ensures darkMode == InitialDarkMode(saved, systemPrefersDark)
      ensures !isLoading
    {
      darkMode := InitialDarkMode(saved, systemPrefersDark);
      isLoading := false;
    }

    /** The `prefers-color-scheme` change listener. */
    method HandleSystemThemeChange(saved: SavedTheme, matches: bool)
      modifies this`darkMode
      ensures darkMode == DarkModeAfterSystemChange(old(darkMode), saved, matches)
    {
      if NoThemeSaved(saved) {
        darkMode := matches;
      }
    }
  }
}
