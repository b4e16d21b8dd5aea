/**
 * The search page's `filtered` list: a single `users.filter` whose predicate
 * ANDs a free-text query, a multi-select department filter and a
 * multi-select rating filter.
 */
module SearchPage {
  import opened Text
  import opened Lists
  import opened Employees

  /**
   * Each of the four fields is tested on its own; there is no joined full
   * name. The empty query matches everyone, and a match needs a field at
   * least as long as the query.
   */
  predicate MatchesQuery(u: Employee, query: string)
    ensures query == [] ==> MatchesQuery(u, query)
    ensures MatchesQuery(u, query) ==>
      |query| <= |u.firstName| || |query| <= |u.lastName| || |query| <= |u.email| || |query| <= |u.department|
  {
    Includes(Lower(u.firstName), Lower(query)) ||
    Includes(Lower(u.lastName), Lower(query)) ||
    Includes(Lower(u.email), Lower(query)) ||
    Includes(Lower(u.department), Lower(query))
  }

  /** No department selected, or the user's department is one of those selected, exactly. */
  predicate MatchesDepartments(u: Employee, selected: seq<string>)
    ensures selected == [] ==> MatchesDepartments(u, selected)
    ensures selected != [] ==>
      (MatchesDepartments(u, selected) <==> exists i :: 0 <= i < |selected| && selected[i] == u.department)
  {
    |selected| == 0 || u.department in selected
  }

  /**
   * No rating selected, or the user's rating is one of those selected.
   * `includes` compares with SameValueZero, under which a rating held as a
   * decimal string never equals one of the selected integers.
   */
  predicate MatchesRatings(u: Employee, selected: seq<int>)
    ensures u.rating.Decimal? ==> (MatchesRatings(u, selected) <==> selected == [])
    ensures u.rating.Whole? ==>
      (MatchesRatings(u, selected) <==> selected == [] || exists i :: 0 <= i < |selected| && selected[i] == u.rating.stars)
  {
    |selected| == 0 || (u.rating.Whole? && u.rating.stars in selected)
  }

  function Kept(query: string, departments: seq<string>, ratings: seq<int>): Employee -> bool {
    (u: Employee) => MatchesQuery(u, query) && MatchesDepartments(u, departments) && MatchesRatings(u, ratings)
  }

  /** The users shown: those passing all three tests, in their original order. */
  function Filtered(users: seq<Employee>, query: string, departments: seq<string>, ratings: seq<int>)
    : (r: seq<Employee>)
    ensures IsSubsequence(r, users)
    ensures forall i :: 0 <= i < |r| ==>
      r[i] in users && MatchesQuery(r[i], query) && MatchesDepartments(r[i], departments) && MatchesRatings(r[i], ratings)
    ensures forall i :: 0 <= i < |users| ==>
      (MatchesQuery(users[i], query) && MatchesDepartments(users[i], departments) && MatchesRatings(users[i], ratings)
       ==> users[i] in r)
    ensures forall u :: (multiset(r)[u] ==
      if MatchesQuery(u, query) && MatchesDepartments(u, departments) && MatchesRatings(u, ratings)
      then multiset(users)[u] else 0)
    ensures query == "" && departments == [] && ratings == [] ==> r == users
  {
    var keep := Kept(query, departments, ratings);
    FilterIsSubsequence(users, keep);
    FilterCounts(users, keep);
    if query == "" && departments == [] && ratings == [] then
      FilterKeepsAll(users, keep);
      Filter(users, keep)
    else
      Filter(users, keep)
  }

  /** A query spanning first and last name finds nobody, though the dashboard's search would. */
  lemma NoJoinedFullName()
    ensures var u := Employee(1, "Ann", "Lee", "a@b.c", "HR", Whole(3));
      !MatchesQuery(u, "ann lee") && Filtered([u], "ann lee", [], []) == []
  {
  }

  /** The query "eng" picks the Engineering record out of a list and keeps nothing else. */
  lemma QueryMatchesDepartmentText()
    ensures var hr := Employee(1, "Al", "Li", "al@x.io", "HR", Whole(4));
      var eng := Employee(2, "Bo", "Ng", "bo@x.io", "Engineering", Whole(5));
      Filtered([hr, eng], "eng", [], []) == [eng]
  {
    var hr := Employee(1, "Al", "Li", "al@x.io", "HR", Whole(4));
    var eng := Employee(2, "Bo", "Ng", "bo@x.io", "Engineering", Whole(5));
    var q := Lower("eng");
    assert q == "eng";
    NotIncludedWithoutFirstChar(Lower(hr.firstName), q);
    NotIncludedWithoutFirstChar(Lower(hr.lastName), q);
    NotIncludedWithoutFirstChar(Lower(hr.email), q);
    NotIncludedWithoutFirstChar(Lower(hr.department), q);
    assert Lower(eng.department)[..3] == "eng";
    assert Includes(Lower(eng.department), q);
    var keep := Kept("eng", [], []);
    assert [hr, eng][1..] == [eng];
    assert Filter([eng], keep) == [eng] + Filter([eng][1..], keep);
  }

  /** The rating filter compares exactly: a 4-star user matches bucket 4 and not bucket 5. */
  lemma RatingFilterIsExact(u: Employee)
    requires u.rating == Whole(4)
    ensures MatchesRatings(u, [4]) && !MatchesRatings(u, [5])
  {
  }
}
