/**
 * The dashboard's logic: the effect that filters the fetched users by search
 * term and department, the toast chosen when a bookmark is toggled, and the
 * star row drawn for a one-decimal rating.
 */
module Dashboard {
  import opened Text
  import opened Lists
  import opened Employees
  import opened HRContext

  /** `${user.firstName} ${user.lastName}` */
  function FullName(u: Employee): string {
    u.firstName + " " + u.lastName
  }

  /**
   * The search test: the lowercased term occurs in the lowercased full name,
   * email or department. The empty term matches everyone, and a match needs
   * a searched field at least as long as the term.
   */
  predicate MatchesSearch(u: Employee, term: string)
    ensures term == [] ==> MatchesSearch(u, term)
    ensures MatchesSearch(u, term) ==>
      |term| <= |FullName(u)| || |term| <= |u.email| || |term| <= |u.department|
  {
    Includes(Lower(FullName(u)), Lower(term)) ||
    Includes(Lower(u.email), Lower(term)) ||
    Includes(Lower(u.department), Lower(term))
  }

  /**
   * The search step applies only when the term is non-empty (an empty string
   * is falsy). Since every field includes the empty term, the guard does not
   * change who passes.
   */
  predicate PassesSearch(u: Employee, term: string)
    ensures PassesSearch(u, term) <==> MatchesSearch(u, term)
  {
    term == [] || MatchesSearch(u, term)
  }

  /** The department step applies only when the selection is not "all"; the match is exact. */
  predicate PassesDepartment(u: Employee, dept: string)
    ensures dept == "all" ==> PassesDepartment(u, dept)
    ensures dept != "all" ==> (PassesDepartment(u, dept) <==> u.department == dept)
  {
    dept == "all" || u.department == dept
  }

  function SearchStep(term: string): Employee -> bool {
    (u: Employee) => MatchesSearch(u, term)
  }

  function DepartmentStep(dept: string): Employee -> bool {
    (u: Employee) => u.department == dept
  }

  /** Whether the effect keeps a user: both steps pass. */
  function Shown(term: string, dept: string): Employee -> bool {
    (u: Employee) => PassesSearch(u, term) && PassesDepartment(u, dept)
  }

  /** The filter effect: start from `users`, narrow by search, then by department. */
  method FilterUsers(users: seq<Employee>, searchTerm: string, selectedDepartment: string)
    returns (filtered: seq<Employee>)
    ensures filtered == Filter(users, Shown(searchTerm, selectedDepartment))
    ensures IsSubsequence(filtered, users)
    ensures forall i :: 0 <= i < |filtered| ==>
      PassesSearch(filtered[i], searchTerm) && PassesDepartment(filtered[i], selectedDepartment)
    ensures forall i :: 0 <= i < |users| ==>
      (PassesSearch(users[i], searchTerm) && PassesDepartment(users[i], selectedDepartment) ==> users[i] in filtered)
    ensures searchTerm == "" && selectedDepartment == "all" ==> filtered == users
  {
    var shown := Shown(searchTerm, selectedDepartment);
    filtered := users;
    if searchTerm != "" {
      filtered := Filter(filtered, SearchStep(searchTerm));
    }
    if selectedDepartment != "all" {
      filtered := Filter(filtered, DepartmentStep(selectedDepartment));
    }
    if searchTerm != "" && selectedDepartment != "all" {
      FilterFuse(users, SearchStep(searchTerm), DepartmentStep(selectedDepartment), shown);
    } else if searchTerm != "" {
      FilterEquivalent(users, SearchStep(searchTerm), shown);
    } else if selectedDepartment != "all" {
      FilterEquivalent(users, DepartmentStep(selectedDepartment), shown);
    } else {
      FilterKeepsAll(users, shown);
    }
    FilterIsSubsequence(users, shown);
  }

  /** Keeping a user means passing both steps, so the two steps may run in either order. */
  lemma FilterStepsCommute(users: seq<Employee>, term: string, dept: string)
    ensures Filter(Filter(users, (u: Employee) => PassesSearch(u, term)), (u: Employee) => PassesDepartment(u, dept))
         == Filter(users, Shown(term, dept))
    ensures Filter(Filter(users, (u: Employee) => PassesDepartment(u, dept)), (u: Employee) => PassesSearch(u, term))
         == Filter(users, Shown(term, dept))
  {
  }

  /** The joined full name is searched as the lowercased first name, a space, the lowercased last name. */
  lemma FullNameLowered(u: Employee)
    ensures Lower(FullName(u)) == Lower(u.firstName) + " " + Lower(u.lastName)
  {
  }

  /** The search ignores the case of the term. */
  lemma SearchIgnoresTermCase(u: Employee, term: string)
    ensures MatchesSearch(u, term) == MatchesSearch(u, Lower(term))
  {
    LowerIdempotent(term);
  }

  /** A term that is a name, email or department verbatim always finds its user. */
  lemma SearchFindsOwnFields(u: Employee)
    ensures MatchesSearch(u, u.email)
    ensures MatchesSearch(u, u.department)
  {
  }

  /** Toast shown after a bookmark click. */
  function BookmarkToast(wasBookmarked: bool): (msg: string)
    ensures msg == "Removed from bookmarks" <==> wasBookmarked
    ensures msg == "Added to bookmarks" <==> !wasBookmarked
  {
    if wasBookmarked then "Removed from bookmarks" else "Added to bookmarks"
  }

  /**
   * `handleBookmark`: toggle, then pick the toast. The `isBookmarked` the
   * handler calls reads the list captured when the page was rendered, i.e.
   * the list before the toggle.
   */
  method HandleBookmark(provider: HRProvider, user: Employee, now: string) returns (toast: string)
    modifies provider`bookmarks
    ensures provider.bookmarks == Toggled(old(provider.bookmarks), user, now)
    ensures toast == "Removed from bookmarks" <==> old(provider.IsBookmarked(user.id))
    ensures toast == "Added to bookmarks" <==> provider.IsBookmarked(user.id)
  {
    var rendered := provider.bookmarks;
    provider.ToggleBookmark(user, now);
    toast := BookmarkToast(HasId(rendered, user.id));
  }

  datatype Star = Full | Half | Empty

  /** `Math.floor(rating)`: Dafny's `/` by a positive divisor rounds down. */
  function FullStars(tenths: int): (n: int)
    ensures 10 * n <= tenths < 10 * (n + 1)
  {
    tenths / 10
  }

  /**
   * `rating % 1 >= 0.5`: JavaScript's `%` keeps the sign of a negative
   * rating, so only a non-negative rating whose part above the floor is at
   * least one half gets a half star; that star is always a started one.
   */
  predicate HasHalfStar(tenths: int)
    ensures HasHalfStar(tenths) <==> 0 <= tenths && tenths - 10 * FullStars(tenths) >= 5
    ensures HasHalfStar(tenths) ==> FullStars(tenths) < CeilStars(tenths)
  {
    tenths >= 0 && tenths % 10 >= 5
  }

  /** `Math.ceil(rating)` */
  function CeilStars(tenths: int): (c: int)
    ensures 10 * (c - 1) < tenths <= 10 * c
  {
    -((-tenths) / 10)
  }

  /** `n` copies of `s`; none when `n` is not positive, as a loop `i < n` from 0 runs no times. */
  function Repeat(s: Star, n: int): (r: seq<Star>)
    ensures |r| == if n <= 0 then 0 else n
    ensures forall i :: 0 <= i < |r| ==> r[i] == s
  {
    if n <= 0 then [] else Repeat(s, n - 1) + [s]
  }

  /** The row `renderStars` draws: full stars, an optional half star, then `5 - ceil(rating)` empty stars. */
  function StarRow(tenths: int): (r: seq<Star>)
    ensures forall i, j :: 0 <= i < j < |r| && r[j] == Full ==> r[i] == Full
    ensures forall i, j :: 0 <= i < j < |r| && r[i] == Empty ==> r[j] == Empty
    ensures forall i :: 0 <= i < |r| ==> (r[i] == Full <==> i < FullStars(tenths))
  {
    Repeat(Full, FullStars(tenths)) + (if HasHalfStar(tenths) then [Half] else []) + Repeat(Empty, 5 - CeilStars(tenths))
  }

  /** `renderStars(rating)` for a rating of `tenths` tenths, built by two counting loops. */
  method RenderStars(tenths: int) returns (stars: seq<Star>)
    ensures stars == StarRow(tenths)
  {
    var fullStars := tenths / 10;
    var hasHalfStar := tenths >= 0 && tenths % 10 >= 5;
    stars := [];
    var i := 0;
    while i < fullStars
      invariant 0 <= i <= if fullStars < 0 then 0 else fullStars
      invariant stars == Repeat(Full, i)
    {
      stars := stars + [Full];
      i := i + 1;
    }
    if hasHalfStar {
      stars := stars + [Half];
    }
    ghost var drawn := stars;
    var remainingStars := 5 - -((-tenths) / 10);
    var j := 0;
    while j < remainingStars
      invariant 0 <= j <= if remainingStars < 0 then 0 else remainingStars
      invariant stars == drawn + Repeat(Empty, j)
    {
      stars := stars + [Empty];
      j := j + 1;
    }
  }

  function CountOf(s: seq<Star>, x: Star): nat {
    if s == [] then 0 else (if s[0] == x then 1 else 0) + CountOf(s[1..], x)
  }

  lemma {:induction false} CountOfAppend(a: seq<Star>, b: seq<Star>, x: Star)
    ensures CountOf(a + b, x) == CountOf(a, x) + CountOf(b, x)
  {
    if a != [] {
      assert (a + b)[1..] == a[1..] + b;
      CountOfAppend(a[1..], b, x);
    } else {
      assert a + b == b;
    }
  }

  lemma {:induction false} CountOfRepeat(s: Star, n: int, x: Star)
    ensures CountOf(Repeat(s, n), x) == if s == x && n > 0 then n else 0
    decreases if n <= 0 then 0 else n
  {
    if n > 0 {
      CountOfRepeat(s, n - 1, x);
      CountOfAppend(Repeat(s, n - 1), [s], x);
    }
  }

  /**
   * For a rating of 0.0 to 5.0: `floor` full stars, one half star exactly
   * when the first decimal is 5 or more, and `5 - ceil` empty stars.
   */
  lemma StarRowCounts(tenths: int)
    requires 0 <= tenths <= 50
    ensures CountOf(StarRow(tenths), Full) == tenths / 10
    ensures CountOf(StarRow(tenths), Half) == if tenths % 10 >= 5 then 1 else 0
    ensures CountOf(StarRow(tenths), Empty) == 5 - CeilStars(tenths)
  {
    var half: seq<Star> := if HasHalfStar(tenths) then [Half] else [];
    assert CountOf([Half], Full) == 0 && CountOf([Half], Half) == 1 && CountOf([Half], Empty) == 0 by {
      assert [Half][1..] == [];
    }
    forall x
      ensures CountOf(StarRow(tenths), x)
           == CountOf(Repeat(Full, FullStars(tenths)), x) + CountOf(half, x) + CountOf(Repeat(Empty, 5 - CeilStars(tenths)), x)
    {
      CountOfAppend(Repeat(Full, FullStars(tenths)) + half, Repeat(Empty, 5 - CeilStars(tenths)), x);
      CountOfAppend(Repeat(Full, FullStars(tenths)), half, x);
    }
    CountOfRepeat(Full, FullStars(tenths), Full);
    CountOfRepeat(Full, FullStars(tenths), Half);
    CountOfRepeat(Full, FullStars(tenths), Empty);
    CountOfRepeat(Empty, 5 - CeilStars(tenths), Full);
    CountOfRepeat(Empty, 5 - CeilStars(tenths), Half);
    CountOfRepeat(Empty, 5 - CeilStars(tenths), Empty);
  }

  /**
   * The row has five icons for whole ratings and for first decimals 5 to 9,
   * but only four when the first decimal is 1 to 4: the partial star is
   * counted by `ceil` yet never drawn.
   */
  lemma StarRowLength(tenths: int)
    requires 0 <= tenths <= 50
    ensures |StarRow(tenths)| == if tenths % 10 == 0 || tenths % 10 >= 5 then 5 else 4
  {
  }

  /** A 3.2 rating draws three full stars and one empty star: four icons. */
  lemma StarRowDropsSlot()
    ensures StarRow(32) == [Full, Full, Full, Empty]
  {
  }

  /** The row the design evidently intends: the empty stars fill up to five slots. */
  function FiveSlotStarRow(tenths: int): (r: seq<Star>)
    requires 0 <= tenths <= 50
    ensures |r| == 5
    ensures CountOf(r, Full) == tenths / 10
    ensures CountOf(r, Half) == if tenths % 10 >= 5 then 1 else 0
    ensures forall i :: 0 <= i < 5 ==> (r[i] == Full <==> 10 * (i + 1) <= tenths)
  {
    var half: seq<Star> := if tenths % 10 >= 5 then [Half] else [];
    var full := Repeat(Full, tenths / 10);
    var empty := Repeat(Empty, 5 - tenths / 10 - |half|);
    CountOfAppend(full + half, empty, Full);
    CountOfAppend(full, half, Full);
    CountOfAppend(full + half, empty, Half);
    CountOfAppend(full, half, Half);
    CountOfRepeat(Full, tenths / 10, Full);
    CountOfRepeat(Full, tenths / 10, Half);
    CountOfRepeat(Empty, 5 - tenths / 10 - |half|, Full);
    CountOfRepeat(Empty, 5 - tenths / 10 - |half|, Half);
    assert CountOf([Half], Full) == 0 && CountOf([Half], Half) == 1 by {
      assert [Half][1..] == [];
    }
    var r := full + half + empty;
    assert forall i :: 0 <= i < |full| ==> r[i] == Full;
    assert forall i :: |full| <= i < 5 ==> r[i] != Full;
    r
  }

  /** The corrected row agrees with the drawn one wherever the drawn one has five icons. */
  lemma FiveSlotRowAgrees(tenths: int)
    requires 0 <= tenths <= 50
    requires tenths % 10 == 0 || tenths % 10 >= 5
    ensures FiveSlotStarRow(tenths) == StarRow(tenths)
  {
  }
}
