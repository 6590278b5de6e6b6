/** Substring search, as `std::string::find(needle) != npos`. */
module Strings {

  /** `needle` starts at position `i` of `s`. */
  predicate OccursAt(s: string, needle: string, i: nat) {
    i + |needle| <= |s| && s[i..i + |needle|] == needle
  }

  /** Whether `needle` occurs in `s` at some position (an empty needle occurs everywhere). */
  function Contains(s: string, needle: string): (b: bool)
    ensures b <==> exists i: nat :: OccursAt(s, needle, i)
    decreases |s|
  {
    if |s| < |needle| then false
    else if s[..|needle|] == needle then assert OccursAt(s, needle, 0); true
    else
      var rest := Contains(s[1..], needle);
      assert forall i: nat :: OccursAt(s, needle, i + 1) <==> OccursAt(s[1..], needle, i) by {
        forall i: nat ensures OccursAt(s, needle, i + 1) <==> OccursAt(s[1..], needle, i) {
          if i + 1 + |needle| <= |s| {
            assert s[1..][i..i + |needle|] == s[i + 1..i + 1 + |needle|];
          }
        }
      }
      assert !OccursAt(s, needle, 0);
      assert rest ==> exists i: nat :: OccursAt(s, needle, i) by {
        if rest {
          var i: nat :| OccursAt(s[1..], needle, i);
          assert OccursAt(s, needle, i + 1);
        }
      }
      assert (exists i: nat :: OccursAt(s, needle, i)) ==> rest by {
        if exists i: nat :: OccursAt(s, needle, i) {
          var i: nat :| OccursAt(s, needle, i);
          assert i != 0;
          assert OccursAt(s[1..], needle, i - 1);
        }
      }
      rest
  }
}
