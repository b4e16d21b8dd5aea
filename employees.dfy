/**
 * The employee record shared by every page: the fields the dashboard, the
 * search page and the bookmarks page read. Phone, address, salary, join date,
 * performance and avatar are display-only and are not part of the model.
 */
module Employees {

  /**
   * The two shapes the synthetic rating takes. The dashboard stores a
   * one-decimal string such as "4.3" (`toFixed(1)`), modelled by the number
   * of tenths it denotes; the search page stores an integer star count.
   */
  datatype Rating =
    | Decimal(tenths: int)
    | Whole(stars: int)

  datatype Employee = Employee(
    id: int,
    firstName: string,
    lastName: string,
    email: string,
    department: string,
    rating: Rating
  )

  /**
   * `i < user.rating`: JavaScript converts a decimal string to its number
   * before comparing, so a whole slot index is below a one-decimal rating
   * exactly when it is below that rating rounded up.
   */
  predicate BelowRating(i: int, r: Rating)
    ensures r.Decimal? ==> (BelowRating(i, r) <==> i < (r.tenths + 9) / 10)
  {
    match r
    case Decimal(t) => 10 * i < t
    case Whole(n) => i < n
  }

  /** The five rating slots drawn by `Array.from({ length: 5 })`: slot `i` is filled when `i < rating`. */
  function StarSlots(r: Rating): (slots: seq<bool>)
    ensures |slots| == 5
    ensures forall i, j :: 0 <= i < j < 5 && slots[j] ==> slots[i]
  {
    seq(5, i => BelowRating(i, r))
  }

  function CountFilled(slots: seq<bool>): nat {
    if slots == [] then 0 else (if slots[0] then 1 else 0) + CountFilled(slots[1..])
  }

  /** Slots filled exactly below `k` number `k`. */
  lemma {:induction false} CountFilledPrefix(slots: seq<bool>, k: int)
    requires 0 <= k <= |slots|
    requires forall i :: 0 <= i < |slots| ==> (slots[i] <==> i < k)
    ensures CountFilled(slots) == k
  {
    if slots != [] {
      CountFilledPrefix(slots[1..], if k > 0 then k - 1 else 0);
    }
  }

  /**
   * A whole rating of `n` stars (0 to 5) fills `n` slots; a one-decimal
   * rating fills one slot per started star, i.e. its value rounded up.
   */
  lemma FilledSlotCount(r: Rating)
    ensures r.Whole? && 0 <= r.stars <= 5 ==> CountFilled(StarSlots(r)) == r.stars
    ensures r.Decimal? && 0 <= r.tenths <= 50 ==> CountFilled(StarSlots(r)) == (r.tenths + 9) / 10
  {
    match r
    case Whole(n) =>
      if 0 <= n <= 5 {
        CountFilledPrefix(StarSlots(r), n);
      }
    case Decimal(t) =>
      if 0 <= t <= 50 {
        forall i | 0 <= i < 5
          ensures 10 * i < t <==> i < (t + 9) / 10
        {
        }
        CountFilledPrefix(StarSlots(r), (t + 9) / 10);
      }
  }
}
