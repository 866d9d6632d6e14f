/** Python's `str.replace(old, new)` with no count: every non-overlapping
    occurrence of `old`, found scanning left to right, is replaced by `new`. */
module Strings {

  /** `pat` occurs in `s` starting at position `k`. */
  predicate OccursAt(s: string, pat: string, k: nat)
  {
    k + |pat| <= |s| && s[k..k + |pat|] == pat
  }

  predicate Occurs(s: string, pat: string)
  {
    exists k: nat | k <= |s| :: OccursAt(s, pat, k)
  }

  /** `s.replace(pat, rep)`. An empty `pat` matches before every character and at
      the end, as in Python: `"ab".replace("", "X") == "XaXbX"`. A string in
      which the pattern does not occur is returned unchanged. */
  function ReplaceAll(s: string, pat: string, rep: string): (r: string)
    ensures !Occurs(s, pat) ==> r == s
    decreases |s|
  {
    if pat == [] then
      assert OccursAt(s, pat, 0);
      if s == [] then rep else rep + [s[0]] + ReplaceAll(s[1..], pat, rep)
    else if OccursAt(s, pat, 0) then
      rep + ReplaceAll(s[|pat|..], pat, rep)
    else if s == [] then
      []
    else
      OccursInTail(s, pat);
      assert s == [s[0]] + s[1..];
      [s[0]] + ReplaceAll(s[1..], pat, rep)
  }

  /** An occurrence in the tail of `s` is an occurrence in `s`. */
  lemma OccursInTail(s: string, pat: string)
    requires s != []
    ensures Occurs(s[1..], pat) ==> Occurs(s, pat)
  {
    if Occurs(s[1..], pat) {
      var k: nat :| k <= |s[1..]| && OccursAt(s[1..], pat, k);
      assert s == [s[0]] + s[1..];
      OccursAtShift([s[0]], s[1..], pat, k + 1);
    }
  }

  /** `s.count(pat)`: the number of non-overlapping occurrences that the same
      left-to-right scan finds (one more than the length for an empty `pat`). */
  function Count(s: string, pat: string): (c: nat)
    decreases |s|
  {
    if pat == [] then |s| + 1
    else if OccursAt(s, pat, 0) then 1 + Count(s[|pat|..], pat)
    else if s == [] then 0
    else Count(s[1..], pat)
  }

  /** Each replaced occurrence changes the length by `|rep| - |pat|`. */
  lemma {:induction false} ReplaceAllLength(s: string, pat: string, rep: string)
    ensures |ReplaceAll(s, pat, rep)| == |s| + Count(s, pat) * (|rep| - |pat|)
    decreases |s|
  {
    var d := |rep| - |pat|;
    if pat == [] {
      if s != [] {
        ReplaceAllLength(s[1..], pat, rep);
        Distribute(Count(s[1..], pat), d);
      }
    } else if OccursAt(s, pat, 0) {
      var rest := s[|pat|..];
      ReplaceAllLength(rest, pat, rep);
      var c := Count(rest, pat);
      assert ReplaceAll(s, pat, rep) == rep + ReplaceAll(rest, pat, rep);
      assert Count(s, pat) == 1 + c;
      assert |s| == |pat| + |rest|;
      Distribute(c, d);
    } else if s != [] {
      ReplaceAllLength(s[1..], pat, rep);
    }
  }

  lemma Distribute(c: int, d: int)
    ensures (1 + c) * d == d + c * d
  {
  }

  lemma NonZeroProduct(c: int, d: int)
    requires d != 0
    ensures c * d == 0 <==> c == 0
  {
  }

  /** An occurrence past a prefix `a` is an occurrence in what follows `a`. */
  lemma OccursAtShift(a: string, b: string, pat: string, k: nat)
    requires k >= |a|
    ensures OccursAt(a + b, pat, k) <==> OccursAt(b, pat, k - |a|)
  {
    if k + |pat| <= |a + b| {
      assert (a + b)[k..k + |pat|] == b[k - |a|..k - |a| + |pat|];
    }
  }

  /** The scan finds something to replace exactly when the pattern occurs. */
  lemma {:induction false} CountZero(s: string, pat: string)
    ensures Count(s, pat) == 0 <==> !Occurs(s, pat)
    decreases |s|
  {
    if pat == [] {
      assert OccursAt(s, pat, 0);
    } else if OccursAt(s, pat, 0) {
    } else if s == [] {
      assert forall k: nat :: !OccursAt(s, pat, k);
    } else {
      CountZero(s[1..], pat);
      assert s == [s[0]] + s[1..];
      forall k: nat
        ensures OccursAt(s, pat, k) <==> k >= 1 && OccursAt(s[1..], pat, k - 1)
      {
        if k >= 1 {
          OccursAtShift([s[0]], s[1..], pat, k);
        }
      }
      if Occurs(s[1..], pat) {
        var k: nat :| k <= |s[1..]| && OccursAt(s[1..], pat, k);
        assert OccursAt(s, pat, k + 1);
      }
    }
  }

  /** The text around an occurrence is kept in order and `rep` is written where
      the occurrence stood: with no earlier occurrence in `a`, the scan reaches
      the one after `a` and replaces it. Holds for any two-character pattern of
      two different characters, such as `%n`. */
  lemma {:induction false} ReplaceSplit(a: string, pat: string, b: string, rep: string)
    requires |pat| == 2 && pat[0] != pat[1]
    requires !Occurs(a, pat)
    ensures ReplaceAll(a + pat + b, pat, rep) == a + rep + ReplaceAll(b, pat, rep)
    decreases |a|
  {
    var s := a + pat + b;
    if a == [] {
      assert s[..2] == pat && s[2..] == b;
    } else {
      if |a| >= 2 {
        assert s[..2] == a[..2];
        assert !OccursAt(a, pat, 0);
      } else {
        assert s[..2] == [a[0], pat[0]];
      }
      assert !OccursAt(s, pat, 0);
      assert s[0] == a[0] && s[1..] == a[1..] + pat + b;
      assert ReplaceAll(s, pat, rep) == [a[0]] + ReplaceAll(a[1..] + pat + b, pat, rep);
      OccursInTail(a, pat);
      ReplaceSplit(a[1..], pat, b, rep);
      assert [a[0]] + (a[1..] + rep + ReplaceAll(b, pat, rep)) == a + rep + ReplaceAll(b, pat, rep);
    }
  }

  /** When the replacement has a different length than the pattern, the result
      equals the input exactly when there was nothing to replace. */
  lemma ReplaceIdentity(s: string, pat: string, rep: string)
    requires |rep| != |pat|
    ensures ReplaceAll(s, pat, rep) == s <==> !Occurs(s, pat)
  {
    ReplaceAllLength(s, pat, rep);
    CountZero(s, pat);
    NonZeroProduct(Count(s, pat), |rep| - |pat|);
  }

  /** Replacing with text that shares no character with a two-character
      pattern leaves no occurrence of the pattern: none survives the scan and
      none is formed across a replacement's edges. The replacement must not be
      empty: `"%%nn".replace("%n", "")` is `"%n"`. */
  lemma {:induction false} ReplaceLeavesNoPattern(s: string, pat: string, rep: string)
    requires |pat| == 2 && |rep| >= 1
    requires forall k :: 0 <= k < |rep| ==> rep[k] != pat[0] && rep[k] != pat[1]
    ensures !Occurs(ReplaceAll(s, pat, rep), pat)
    decreases |s|
  {
    var r := ReplaceAll(s, pat, rep);
    if OccursAt(s, pat, 0) {
      var r' := ReplaceAll(s[2..], pat, rep);
      ReplaceLeavesNoPattern(s[2..], pat, rep);
      assert r == rep + r';
      forall k: nat | k <= |r|
        ensures !OccursAt(r, pat, k)
      {
        if k < |rep| {
          assert r[k] == rep[k];
        } else {
          OccursAtShift(rep, r', pat, k);
        }
      }
    } else if s != [] {
      var r' := ReplaceAll(s[1..], pat, rep);
      ReplaceLeavesNoPattern(s[1..], pat, rep);
      assert r == [s[0]] + r';
      forall k: nat | k <= |r|
        ensures !OccursAt(r, pat, k)
      {
        if k >= 1 {
          OccursAtShift([s[0]], r', pat, k);
        } else if |r| >= 2 {
          assert s[1..] != [];
          if OccursAt(s[1..], pat, 0) {
            assert r[1] == rep[0];
          } else {
            assert r[1] == s[1];
            assert s[..2] == [s[0], s[1]];
          }
        }
      }
    }
  }
}
