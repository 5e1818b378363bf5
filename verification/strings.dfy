/** The two string operations the spider relies on: Python's substring test
    `pat in s` and the repeated `+=` that builds the article body. */
module Strings {

  /** `pat` occurs in `s` starting at index `i`. */
  ghost predicate OccursAt(s: string, pat: string, i: int) {
    0 <= i && i + |pat| <= |s| && s[i..i + |pat|] == pat
  }

  lemma OccursAtShift(s: string, pat: string, i: int)
    requires |s| > 0 && i >= 0
    ensures OccursAt(s[1..], pat, i) <==> OccursAt(s, pat, i + 1)
  {
  }

  /** Python's `pat in s` on strings: an exact, case-sensitive search for a
      contiguous occurrence of `pat`. */
  function Contains(s: string, pat: string): (r: bool)
    ensures r <==> exists i :: OccursAt(s, pat, i)
    decreases |s|
  {
    if |s| < |pat| then
      assert forall i :: !OccursAt(s, pat, i);
      false
    else if s[..|pat|] == pat then
      assert OccursAt(s, pat, 0);
      true
    else
      var rest := Contains(s[1..], pat);
      assert rest ==> exists i :: OccursAt(s, pat, i) by {
        if rest {
          var j :| OccursAt(s[1..], pat, j);
          OccursAtShift(s, pat, j);
        }
      }
      assert (exists i :: OccursAt(s, pat, i)) ==> rest by {
        if i :| OccursAt(s, pat, i) {
          assert i != 0;
          OccursAtShift(s, pat, i - 1);
        }
      }
      rest
  }

  /** A text without the first character of `pat` cannot contain `pat`,
      nor can it once a tail too short to hold `pat` is appended. */
  lemma NoMatchWithoutFirstChar(x: string, y: string, pat: string)
    requires |pat| > 0 && pat[0] !in x && |y| < |pat|
    ensures !Contains(x + y, pat)
  {
  }

  lemma AppendAssociates(a: string, b: string, c: string)
    ensures a + (b + c) == (a + b) + c
  {
  }

  /** The string built by starting from `''` and appending each element of
      `ss` in order, as repeated `+=` does. */
  function Concat(ss: seq<string>): string
  {
    if |ss| == 0 then "" else Concat(ss[..|ss| - 1]) + ss[|ss| - 1]
  }

  /** Appending to the front of the pieces prepends to the joined string. */
  lemma {:induction false} ConcatPrepend(t: string, ss: seq<string>)
    ensures Concat([t] + ss) == t + Concat(ss)
    decreases |ss|
  {
    if |ss| == 0 {
      assert [t] + ss == [t];
      assert [t][..0] == [];
    } else {
      var init := ss[..|ss| - 1];
      assert ([t] + ss)[..|ss|] == [t] + init;
      ConcatPrepend(t, init);
    }
  }
}
