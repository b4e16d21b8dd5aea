/**
 * The two string operations the filters are built from: JavaScript's
 * `toLowerCase` (restricted to ASCII letters) and `String.prototype.includes`
 * (substring test).
 */
module Text {

  /** Lower-cases one ASCII letter; every other character is left alone. */
  function LowerChar(c: char): (r: char)
    ensures 'A' <= c <= 'Z' ==> 'a' <= r <= 'z' && r as int - c as int == 32
    ensures !('A' <= c <= 'Z') ==> r == c
    ensures !('A' <= r <= 'Z')
  {
    if 'A' <= c <= 'Z' then (c as int + 32) as char else c
  }

  /** `s.toLowerCase()`, character by character. */
  function Lower(s: string): (r: string)
    ensures |r| == |s|
    ensures forall i :: 0 <= i < |s| ==> r[i] == LowerChar(s[i])
  {
    seq(|s|, i requires 0 <= i < |s| => LowerChar(s[i]))
  }

  /** Lower-casing distributes over concatenation (used for the joined full name). */
  lemma LowerAppend(a: string, b: string)
    ensures Lower(a + b) == Lower(a) + Lower(b)
  {
  }

  /** Lower-casing twice is the same as once. */
  lemma LowerIdempotent(s: string)
    ensures Lower(Lower(s)) == Lower(s)
  {
  }

  predicate IsPrefix(p: string, s: string) {
    |p| <= |s| && s[..|p|] == p
  }

  /**
   * `s.includes(sub)`: `sub` occurs in `s` at some offset. The empty string
   * is included in every string, and nothing longer than `s` is included in it.
   */
  predicate Includes(s: string, sub: string)
    ensures sub == [] ==> Includes(s, sub)
    ensures Includes(s, sub) ==> |sub| <= |s|
    decreases |s|
  {
    IsPrefix(sub, s) || (s != [] && Includes(s[1..], sub))
  }

  /** `Includes` holds exactly when `sub` occurs at some index of `s`. */
  lemma {:induction false} IncludesAt(s: string, sub: string)
    ensures Includes(s, sub) <==> exists i :: 0 <= i <= |s| && IsPrefix(sub, s[i..])
    decreases |s|
  {
    if s == [] {
      assert s[0..] == s;
      return;
    }
    IncludesAt(s[1..], sub);
    if Includes(s, sub) {
      if IsPrefix(sub, s) {
        assert s[0..] == s;
      } else {
        var j :| 0 <= j <= |s[1..]| && IsPrefix(sub, s[1..][j..]);
        assert s[1..][j..] == s[j + 1..];
      }
    }
    if exists i :: 0 <= i <= |s| && IsPrefix(sub, s[i..]) {
      var i :| 0 <= i <= |s| && IsPrefix(sub, s[i..]);
      if i == 0 {
        assert s[0..] == s;
      } else {
        assert s[1..][i - 1..] == s[i..];
      }
    }
  }

  /** Every string includes itself. */
  lemma IncludesSelf(s: string)
    ensures Includes(s, s)
  {
  }

  /** A non-empty string whose first character never occurs in `s` is not included in `s`. */
  lemma {:induction false} NotIncludedWithoutFirstChar(s: string, sub: string)
    requires sub != [] && forall i :: 0 <= i < |s| ==> s[i] != sub[0]
    ensures !Includes(s, sub)
    decreases |s|
  {
    if s != [] {
      assert |sub| <= |s| ==> s[..|sub|][0] == s[0];
      NotIncludedWithoutFirstChar(s[1..], sub);
    }
  }
}
